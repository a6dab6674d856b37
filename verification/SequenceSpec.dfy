/** The bitstream of a block's sequences: three interleaved FSE states and the extra bits, written backwards, read forwards. */
module SequenceSpec {
  import opened Bits
  import opened Counting
  import opened Results
  import opened BitStream
  import opened FseCoding
  import opened SequenceCodes

  /** A sequence as the encoder holds it: match lengths less three, offsets plus three or the number of a recent one. */
  datatype Seq = Seq(litLen: nat, matchLen: nat, offset: nat)

  predicate SeqOk(q: Seq) { q.litLen < LL_LIMIT && q.matchLen < ML_LIMIT && 1 <= q.offset < OF_LIMIT }

  /** The symbols of the cells of an FSE table of 2^log cells. */
  datatype Table = Table(cells: seq<nat>, log: nat)

  predicate SizeOk(t: Table) { TableOk(t.cells, t.log) }

  datatype Tables = Tables(ll: Table, ml: Table, of: Table)

  predicate TablesOk(ts: Tables) { SizeOk(ts.ll) && SizeOk(ts.ml) && SizeOk(ts.of) }

  /** Every code of the sequence has a cell in its table. */
  predicate Codable(ts: Tables, q: Seq)
  {
    && SeqOk(q)
    && Count(ts.ll.cells, LlCode(q.litLen)) >= 1
    && Count(ts.ml.cells, MlCode(q.matchLen)) >= 1
    && Count(ts.of.cells, OfCode(q.offset)) >= 1
  }

  predicate AllCodable(ts: Tables, qs: seq<Seq>) { forall k :: 0 <= k < |qs| ==> Codable(ts, qs[k]) }

  /** A cell of each table. */
  datatype States = States(ll: nat, ml: nat, of: nat)

  predicate StatesOk(ts: Tables, st: States) { st.ll < |ts.ll.cells| && st.ml < |ts.ml.cells| && st.of < |ts.of.cells| }

  // ----- writing -----

  function StartState(t: Table, code: nat): nat
    requires Count(t.cells, code) >= 1
  {
    Cell(t.cells, code, 0)
  }

  function StartStates(ts: Tables, q: Seq): (st: States)
    requires Codable(ts, q)
    ensures StatesOk(ts, st)
  {
    States(StartState(ts.ll, LlCode(q.litLen)), StartState(ts.ml, MlCode(q.matchLen)), StartState(ts.of, OfCode(q.offset)))
  }

  /** The bits a state gives up to make room for a code. */
  function StateBits(t: Table, y: nat, code: nat): seq<Bit>
    requires SizeOk(t) && y < |t.cells| && Count(t.cells, code) >= 1
  {
    BitsOf(Pow2(t.log) + y, Emit(t.cells, t.log, y, code))
  }

  function NextStates(ts: Tables, st: States, q: Seq): (st': States)
    requires TablesOk(ts) && StatesOk(ts, st) && Codable(ts, q)
    ensures StatesOk(ts, st')
  {
    States(Move(ts.ll.cells, ts.ll.log, st.ll, LlCode(q.litLen)),
           Move(ts.ml.cells, ts.ml.log, st.ml, MlCode(q.matchLen)),
           Move(ts.of.cells, ts.of.log, st.of, OfCode(q.offset)))
  }

  function Transition(ts: Tables, st: States, q: Seq): seq<Bit>
    requires TablesOk(ts) && StatesOk(ts, st) && Codable(ts, q)
  {
    StateBits(ts.of, st.of, OfCode(q.offset)) + StateBits(ts.ml, st.ml, MlCode(q.matchLen)) + StateBits(ts.ll, st.ll, LlCode(q.litLen))
  }

  /** The bits below the ranges of the codes. */
  function Extra(q: Seq): seq<Bit>
    requires SeqOk(q)
  {
    BitsOf(q.litLen, LlBits(LlCode(q.litLen))) + BitsOf(q.matchLen, MlBits(MlCode(q.matchLen))) + BitsOf(q.offset, OfCode(q.offset))
  }

  /** The states when the sequences from k on are written. */
  function StatesFrom(ts: Tables, qs: seq<Seq>, k: nat): (st: States)
    requires TablesOk(ts) && AllCodable(ts, qs) && k < |qs|
    ensures StatesOk(ts, st)
    decreases |qs| - k
  {
    if k == |qs| - 1 then StartStates(ts, qs[k]) else NextStates(ts, StatesFrom(ts, qs, k + 1), qs[k])
  }

  function BitsFrom(ts: Tables, qs: seq<Seq>, k: nat): seq<Bit>
    requires TablesOk(ts) && AllCodable(ts, qs) && k < |qs|
    decreases |qs| - k
  {
    if k == |qs| - 1 then Extra(qs[k])
    else BitsFrom(ts, qs, k + 1) + Transition(ts, StatesFrom(ts, qs, k + 1), qs[k]) + Extra(qs[k])
  }

  /** A state itself, in as many bits as the table has index bits. */
  function FinalBits(t: Table, y: nat): seq<Bit> { BitsOf(Pow2(t.log) + y, t.log) }

  function EncodeSeqs(ts: Tables, qs: seq<Seq>): seq<Bit>
    requires TablesOk(ts) && AllCodable(ts, qs) && qs != []
  {
    var st := StatesFrom(ts, qs, 0);
    BitsFrom(ts, qs, 0) + FinalBits(ts.ml, st.ml) + FinalBits(ts.of, st.of) + FinalBits(ts.ll, st.ll)
  }

  // ----- reading -----

  /** The tables of base values of a decoder. */
  datatype Bases = Bases(ll: seq<BaseOffset>, ml: seq<BaseOffset>, of: seq<BaseOffset>)

  /** Every symbol of the cells has a base value. */
  predicate BasesFor(bs: Bases, ts: Tables)
  {
    && (forall u :: 0 <= u < |ts.ll.cells| ==> ts.ll.cells[u] < |bs.ll|)
    && (forall u :: 0 <= u < |ts.ml.cells| ==> ts.ml.cells[u] < |bs.ml|)
    && (forall u :: 0 <= u < |ts.of.cells| ==> ts.of.cells[u] < |bs.of|)
  }

  /** The base values undo the codes. */
  ghost predicate BasesOk(bs: Bases)
  {
    && (forall v: nat :: v < LL_LIMIT ==> Undoes(bs.ll, LlCode(v), LlBits(LlCode(v)), v, v))
    && (forall v: nat :: v < ML_LIMIT ==> Undoes(bs.ml, MlCode(v), MlBits(MlCode(v)), v, v + 3))
    && (forall v: nat :: 1 <= v < OF_LIMIT ==> Undoes(bs.of, OfCode(v), OfCode(v), v, OfDecoded(v)))
  }

  /** What the decoder reads for one sequence; moB tells recent offsets from new ones. */
  datatype Value = Value(ll: nat, mo: nat, ml: nat, moB: nat)

  function Decoded(q: Seq): Value
    requires SeqOk(q)
  {
    Value(q.litLen, OfDecoded(q.offset), q.matchLen + 3, OfCode(q.offset))
  }

  function ReadValue(bs: Bases, ts: Tables, st: States, s: seq<Bit>): Result<(Value, seq<Bit>)>
    requires StatesOk(ts, st) && BasesFor(bs, ts)
  {
    var ofB := bs.of[ts.of.cells[st.of]];
    var mlB := bs.ml[ts.ml.cells[st.ml]];
    var llB := bs.ll[ts.ll.cells[st.ll]];
    var (mo, s1) :- Pop(s, ofB.addBits);
    var (ml, s2) :- Pop(s1, mlB.addBits);
    var (ll, s3) :- Pop(s2, llB.addBits);
    Ok((Value(llB.baseLine + ll, ofB.baseLine + mo, mlB.baseLine + ml, ofB.addBits), s3))
  }

  /** Leaving a cell with the bits read for it. */
  function Go(t: Table, u: nat, b: nat): nat
    requires SizeOk(t) && u < |t.cells|
  {
    Base(t.cells, t.log, u) + b
  }

  function ReadTransition(ts: Tables, st: States, s: seq<Bit>): (r: Result<(States, seq<Bit>)>)
    requires TablesOk(ts) && StatesOk(ts, st)
    ensures r.Ok? ==> StatesOk(ts, r.value.0)
  {
    var (ll, s1) :- Pop(s, NbBits(ts.ll.cells, ts.ll.log, st.ll));
    var (ml, s2) :- Pop(s1, NbBits(ts.ml.cells, ts.ml.log, st.ml));
    var (of, s3) :- Pop(s2, NbBits(ts.of.cells, ts.of.log, st.of));
    PoppedBelow(s, NbBits(ts.ll.cells, ts.ll.log, st.ll));
    PoppedBelow(s1, NbBits(ts.ml.cells, ts.ml.log, st.ml));
    PoppedBelow(s2, NbBits(ts.of.cells, ts.of.log, st.of));
    GoInside(ts.ll, st.ll, ll);
    GoInside(ts.ml, st.ml, ml);
    GoInside(ts.of, st.of, of);
    Ok((States(Go(ts.ll, st.ll, ll), Go(ts.ml, st.ml, ml), Go(ts.of, st.of, of)), s3))
  }

  lemma GoInside(t: Table, u: nat, b: nat)
    requires SizeOk(t) && u < |t.cells| && b < Pow2(NbBits(t.cells, t.log, u))
    ensures Go(t, u, b) < |t.cells|
  {
    hide Pow2;
    EncodeUndoes(t.cells, t.log, u, b);
  }

  /** Reads n sequences from the given states. */
  function ReadSeqs(bs: Bases, ts: Tables, st: States, s: seq<Bit>, n: nat): Result<(seq<Value>, seq<Bit>)>
    requires TablesOk(ts) && StatesOk(ts, st) && BasesFor(bs, ts) && n >= 1
    decreases n
  {
    var (v, s1) :- ReadValue(bs, ts, st, s);
    if n == 1 then Ok(([v], s1))
    else
      var (st', s2) :- ReadTransition(ts, st, s1);
      var (vs, s3) :- ReadSeqs(bs, ts, st', s2, n - 1);
      Ok(([v] + vs, s3))
  }

  function ReadStates(ts: Tables, s: seq<Bit>): (r: Result<(States, seq<Bit>)>)
    requires TablesOk(ts)
    ensures r.Ok? ==> StatesOk(ts, r.value.0)
  {
    var (ll, s1) :- Pop(s, ts.ll.log);
    var (of, s2) :- Pop(s1, ts.of.log);
    var (ml, s3) :- Pop(s2, ts.ml.log);
    PoppedBelow(s, ts.ll.log);
    PoppedBelow(s1, ts.of.log);
    PoppedBelow(s2, ts.ml.log);
    Ok((States(ll, ml, of), s3))
  }

  /** All sequences of a block; every bit must be used. */
  function DecodeSeqs(bs: Bases, ts: Tables, s: seq<Bit>, n: nat): Result<seq<Value>>
    requires TablesOk(ts) && BasesFor(bs, ts) && n >= 1
  {
    var (st, s1) :- ReadStates(ts, s);
    var (vs, s2) :- ReadSeqs(bs, ts, st, s1, n);
    if s2 == [] then Ok(vs) else Err(ExtraBits)
  }

  // ----- reading undoes writing -----

  /** The state tells the code, and the code's base and the extra bits the value. */
  predicate Names(ts: Tables, st: States, q: Seq)
    requires StatesOk(ts, st) && SeqOk(q)
  {
    ts.ll.cells[st.ll] == LlCode(q.litLen) && ts.ml.cells[st.ml] == MlCode(q.matchLen) && ts.of.cells[st.of] == OfCode(q.offset)
  }

  lemma StatesName(ts: Tables, qs: seq<Seq>, k: nat)
    requires TablesOk(ts) && AllCodable(ts, qs) && k < |qs|
    ensures Names(ts, StatesFrom(ts, qs, k), qs[k])
  {
    hide Pow2, Count, LlCode, MlCode, OfCode;
  }

  lemma ValueRead(bs: Bases, ts: Tables, st: States, q: Seq, s: seq<Bit>)
    requires StatesOk(ts, st) && BasesFor(bs, ts) && BasesOk(bs) && SeqOk(q) && Names(ts, st, q)
    ensures ReadValue(bs, ts, st, s + Extra(q)) == Ok((Decoded(q), s))
  {
    hide Pow2, BitsOf, Low, LlCode, MlCode, OfCode, LlBits, MlBits, OfDecoded, Pop;
    var ll, ml, of := BitsOf(q.litLen, LlBits(LlCode(q.litLen))), BitsOf(q.matchLen, MlBits(MlCode(q.matchLen))), BitsOf(q.offset, OfCode(q.offset));
    assert s + Extra(q) == s + ll + ml + of;
    assert Undoes(bs.ll, LlCode(q.litLen), LlBits(LlCode(q.litLen)), q.litLen, q.litLen);
    assert Undoes(bs.ml, MlCode(q.matchLen), MlBits(MlCode(q.matchLen)), q.matchLen, q.matchLen + 3);
    assert Undoes(bs.of, OfCode(q.offset), OfCode(q.offset), q.offset, OfDecoded(q.offset));
    PopPushed(s + ll + ml, q.offset, OfCode(q.offset));
    PopPushed(s + ll, q.matchLen, MlBits(MlCode(q.matchLen)));
    PopPushed(s, q.litLen, LlBits(LlCode(q.litLen)));
  }

  /** The decoder asks for exactly the bits the encoder's state gave up. */
  lemma StateRead(t: Table, y: nat, code: nat, s: seq<Bit>)
    requires SizeOk(t) && y < |t.cells| && Count(t.cells, code) >= 1
    ensures var u := Move(t.cells, t.log, y, code);
            var r := Pop(s + StateBits(t, y, code), NbBits(t.cells, t.log, u));
            r.Ok? && r.value.1 == s && Go(t, u, r.value.0) == y
  {
    hide Pow2, BitsOf, Low, Count, Pop;
    DecodeUndoes(t.cells, t.log, y, code);
    PopPushed(s, Pow2(t.log) + y, Emit(t.cells, t.log, y, code));
  }

  lemma TransitionRead(ts: Tables, st: States, q: Seq, s: seq<Bit>)
    requires TablesOk(ts) && StatesOk(ts, st) && Codable(ts, q)
    ensures ReadTransition(ts, NextStates(ts, st, q), s + Transition(ts, st, q)) == Ok((st, s))
  {
    hide Pow2, BitsOf, Low, Count, Pop, StateBits, Go, LlCode, MlCode, OfCode, SizeOk;
    var of, ml, ll := StateBits(ts.of, st.of, OfCode(q.offset)), StateBits(ts.ml, st.ml, MlCode(q.matchLen)), StateBits(ts.ll, st.ll, LlCode(q.litLen));
    assert s + Transition(ts, st, q) == s + of + ml + ll;
    StateRead(ts.ll, st.ll, LlCode(q.litLen), s + of + ml);
    StateRead(ts.ml, st.ml, MlCode(q.matchLen), s + of);
    StateRead(ts.of, st.of, OfCode(q.offset), s);
  }

  function DecodedFrom(qs: seq<Seq>, k: nat): (vs: seq<Value>)
    requires k <= |qs| && forall i :: 0 <= i < |qs| ==> SeqOk(qs[i])
    ensures |vs| == |qs| - k && forall i :: 0 <= i < |vs| ==> vs[i] == Decoded(qs[k + i])
    decreases |qs| - k
  {
    if k == |qs| then [] else [Decoded(qs[k])] + DecodedFrom(qs, k + 1)
  }

  lemma {:induction false} SeqsRead(bs: Bases, ts: Tables, qs: seq<Seq>, k: nat, s: seq<Bit>)
    requires TablesOk(ts) && AllCodable(ts, qs) && k < |qs| && BasesFor(bs, ts) && BasesOk(bs)
    ensures ReadSeqs(bs, ts, StatesFrom(ts, qs, k), s + BitsFrom(ts, qs, k), |qs| - k) == Ok((DecodedFrom(qs, k), s))
    decreases |qs| - k
  {
    hide Pow2, BitsOf, Count, ReadValue, ReadTransition, Extra, Transition, Codable, SeqOk, Decoded, BasesOk, BasesFor, NextStates, StartStates, SizeOk;
    CodableOk(ts, qs);
    StatesName(ts, qs, k);
    var st := StatesFrom(ts, qs, k);
    if k == |qs| - 1 {
      ValueRead(bs, ts, st, qs[k], s);
      assert DecodedFrom(qs, k) == [Decoded(qs[k])];
    } else {
      var st', rest := StatesFrom(ts, qs, k + 1), BitsFrom(ts, qs, k + 1);
      var t := Transition(ts, st', qs[k]);
      assert s + BitsFrom(ts, qs, k) == s + rest + t + Extra(qs[k]);
      ValueRead(bs, ts, st, qs[k], s + rest + t);
      TransitionRead(ts, st', qs[k], s + rest);
      SeqsRead(bs, ts, qs, k + 1, s);
    }
  }

  lemma CodableOk(ts: Tables, qs: seq<Seq>)
    requires AllCodable(ts, qs)
    ensures forall i :: 0 <= i < |qs| ==> SeqOk(qs[i])
  {
  }

  /** Reading the stream of any codable sequences gives back exactly those sequences and uses every bit. */
  lemma SequencesRoundTrip(bs: Bases, ts: Tables, qs: seq<Seq>)
    requires TablesOk(ts) && AllCodable(ts, qs) && qs != [] && BasesFor(bs, ts) && BasesOk(bs)
    ensures (forall i :: 0 <= i < |qs| ==> SeqOk(qs[i])) && DecodeSeqs(bs, ts, EncodeSeqs(ts, qs), |qs|) == Ok(DecodedFrom(qs, 0))
  {
    hide ReadStates, FinalBits, ReadSeqs, BitsFrom, StatesFrom, AllCodable, SeqOk, BasesOk, BasesFor, DecodedFrom;
    CodableOk(ts, qs);
    var st, body := StatesFrom(ts, qs, 0), BitsFrom(ts, qs, 0);
    StatesRead(ts, st, body);
    SeqsRead(bs, ts, qs, 0, []);
    assert [] + body == body;
  }

  lemma StatesRead(ts: Tables, st: States, s: seq<Bit>)
    requires TablesOk(ts) && StatesOk(ts, st)
    ensures ReadStates(ts, s + FinalBits(ts.ml, st.ml) + FinalBits(ts.of, st.of) + FinalBits(ts.ll, st.ll)) == Ok((st, s))
  {
    hide Pop, FinalBits, SizeOk;
    FinalRead(ts.ll, st.ll, s + FinalBits(ts.ml, st.ml) + FinalBits(ts.of, st.of));
    FinalRead(ts.of, st.of, s + FinalBits(ts.ml, st.ml));
    FinalRead(ts.ml, st.ml, s);
  }

  lemma FinalRead(t: Table, y: nat, s: seq<Bit>)
    requires SizeOk(t) && y < |t.cells|
    ensures Pop(s + FinalBits(t, y), t.log) == Ok((y, s))
  {
    hide Pow2, BitsOf, Pop, Low, Shr;
    PopPushed(s, Pow2(t.log) + y, t.log);
    assert Shl(1, t.log) == Pow2(t.log);
    ShrOfShl(1, t.log, y);
  }
}
