/** Writing and reading the sequences of a block with tables, states and bit containers. */
module SequenceCoder {
  import opened Bits
  import opened Counting
  import opened BitStream
  import opened FseCoding
  import opened FseCoder
  import opened SequenceCodes
  import opened SequenceSpec

  // ----- writing -----

  ghost function TableOf(e: FseEncoder): Table
    reads e
  {
    Table(e.cells, e.actualTableLog)
  }

  /** The most bits one state may give up at a time, so that three states fit beside 31 waiting bits. */
  const MAX_ENC_LOG: nat := 10

  ghost predicate EncoderOk(e: FseEncoder)
    reads e, e.stateTable, e.symbolTT
  {
    e.Valid() && e.actualTableLog <= MAX_ENC_LOG && SizeOk(TableOf(e))
  }

  lemma EmitBound(t: seq<nat>, log: nat, y: nat, s: nat)
    requires TableOk(t, log) && y < |t| && Count(t, s) >= 1
    ensures Emit(t, log, y, s) <= log
  {
    hide Pow2, Count, Shrink;
    BitLenIs(Pow2(log) + y, log);
    BitLenShr(Pow2(log) + y, Emit(t, log, y, s));
    BitLenPositive(Shr(Pow2(log) + y, Emit(t, log, y, s)));
  }

  /** One state makes room for a code: writes its low bits and moves on. */
  method PutState(e: FseEncoder, wr: BitWriter, state: nat, code: nat) returns (next: nat)
    requires EncoderOk(e) && wr.Valid() && wr.nBits + MAX_ENC_LOG < 64
    requires e.Bias() <= state < e.Bias() + |e.cells| && Count(e.cells, code) >= 1
    modifies wr
    ensures wr.Valid() && wr.nBits <= old(wr.nBits) + MAX_ENC_LOG && wr.start == old(wr.start) && wr.out == old(wr.out)
    ensures wr.Added() == old(wr.Added()) + StateBits(TableOf(e), state - e.Bias(), code)
    ensures next == e.Bias() + Move(e.cells, e.actualTableLog, state - e.Bias(), code)
  {
    hide Pow2, Count, BitsOf, BytesBits, Emit, Move, FseEncoder.TablesOk;
    EmitBound(e.cells, e.actualTableLog, state - e.Bias(), code);
    var nbBitsOut;
    nbBitsOut, next := e.Encode(state, code);
    SameBits(e, state, nbBitsOut);
    wr.AddBits(state, nbBitsOut);
  }

  /** With one symbol the state lacks its leading bit, but then no bits are written. */
  lemma SameBits(e: FseEncoder, state: nat, n: nat)
    requires EncoderOk(e) && e.Bias() <= state && (e.useRLE ==> n == 0)
    ensures BitsOf(state, n) == BitsOf(Pow2(e.actualTableLog) + (state - e.Bias()), n)
  {
  }

  /** The coders of a block. */
  class SeqCoders {
    const llEnc: FseEncoder
    const mlEnc: FseEncoder
    const ofEnc: FseEncoder

    constructor (ll: FseEncoder, ml: FseEncoder, of: FseEncoder)
      ensures llEnc == ll && mlEnc == ml && ofEnc == of
    {
      llEnc, mlEnc, ofEnc := ll, ml, of;
    }

    ghost predicate Valid()
      reads this, llEnc, mlEnc, ofEnc, llEnc.stateTable, llEnc.symbolTT, mlEnc.stateTable, mlEnc.symbolTT, ofEnc.stateTable, ofEnc.symbolTT
    {
      EncoderOk(llEnc) && EncoderOk(mlEnc) && EncoderOk(ofEnc)
    }

    ghost function Ts(): Tables
      reads this, llEnc, mlEnc, ofEnc
    {
      Tables(TableOf(llEnc), TableOf(mlEnc), TableOf(ofEnc))
    }

    /** The three states, as the encoders count them. */
    ghost predicate At(ll: nat, ml: nat, of: nat, st: States)
      reads this, llEnc, mlEnc, ofEnc
    {
      && StatesOk(Ts(), st)
      && ll == llEnc.Bias() + st.ll && ml == mlEnc.Bias() + st.ml && of == ofEnc.Bias() + st.of
    }

    /** The last sequence only starts the states. */
    method PutFirst(wr: BitWriter, q: Seq) returns (ll: nat, ml: nat, of: nat)
      requires Valid() && Codable(Ts(), q) && wr.Valid() && wr.nBits == 0 && wr.Added() == []
      modifies wr
      ensures wr.Valid() && wr.nBits < 64 && wr.start == old(wr.start) && wr.out[..wr.start] == old(wr.out[..wr.start])
      ensures At(ll, ml, of, StartStates(Ts(), q)) && wr.Added() == Extra(q)
    {
      hide Pow2, Count, BitsOf, BytesBits, FseEncoder.Valid, Extra, Codable, SizeOk;
      CodableParts(Ts(), q);
      ll := llEnc.Init(LlCode(q.litLen));
      of := ofEnc.Init(OfCode(q.offset));
      wr.Flush32();
      ml := mlEnc.Init(MlCode(q.matchLen));
      wr.AddBits(q.litLen, LlBits(LlCode(q.litLen)));
      wr.AddBits(q.matchLen, MlBits(MlCode(q.matchLen)));
      wr.Flush32();
      wr.AddBits(q.offset, OfCode(q.offset));
      FirstExtra(q, wr.Added());
    }

    /** Every other sequence moves the states and adds its extra bits. */
    method PutSequence(wr: BitWriter, q: Seq, ll: nat, ml: nat, of: nat, ghost st: States) returns (ll': nat, ml': nat, of': nat)
      requires Valid() && Codable(Ts(), q) && wr.Valid() && wr.nBits < 64 && At(ll, ml, of, st)
      modifies wr
      ensures wr.Valid() && wr.nBits < 64 && wr.start == old(wr.start) && wr.out[..wr.start] == old(wr.out[..wr.start])
      ensures At(ll', ml', of', NextStates(Ts(), st, q))
      ensures wr.Added() == old(wr.Added()) + Transition(Ts(), st, q) + Extra(q)
    {
      hide Pow2, Count, BitsOf, BytesBits, Move, FseEncoder.Valid, Extra, Codable, StateBits, Transition, SizeOk;
      CodableParts(Ts(), q);
      wr.Flush32();
      of' := PutState(ofEnc, wr, of, OfCode(q.offset));
      ml' := PutState(mlEnc, wr, ml, MlCode(q.matchLen));
      ll' := PutState(llEnc, wr, ll, LlCode(q.litLen));
      wr.Flush32();
      var extraBits, extraBitsN := PackExtra(q);
      wr.AddBits64(extraBits, extraBitsN);
      Stacked(Ts(), st, q, old(wr.Added()), wr.Added());
    }

    /** The sequences, last first, then the states and the end mark, behind what the output holds already. */
    method EncodeSequences(sequences: seq<Seq>, output: seq<Byte>) returns (out: seq<Byte>)
      requires Valid() && sequences != [] && AllCodable(Ts(), sequences)
      ensures output <= out && Closed(EncodeSeqs(Ts(), sequences), out[|output|..])
    {
      hide Pow2, Count, BitsOf, BytesBits, FseEncoder.Valid, Extra, BitsFrom, StatesFrom, Closed, Codable, FinalBits, StartStates, NextStates, Transition, SizeOk;
      var wr := new BitWriter(output);
      var k := |sequences| - 1;
      LastFrom(Ts(), sequences);
      var ll, ml, of := PutFirst(wr, sequences[k]);
      while k > 0
        invariant 0 <= k < |sequences|
        invariant wr.Valid() && wr.nBits < 64 && wr.start == |output| && wr.out[..wr.start] == output && fresh(wr)
        invariant wr.Added() == BitsFrom(Ts(), sequences, k) && At(ll, ml, of, StatesFrom(Ts(), sequences, k))
      {
        k := k - 1;
        NextFrom(Ts(), sequences, k);
        ll, ml, of := PutSequence(wr, sequences[k], ll, ml, of, StatesFrom(Ts(), sequences, k + 1));
      }
      PutFinal(mlEnc, wr, ml);
      PutFinal(ofEnc, wr, of);
      PutFinal(llEnc, wr, ll);
      wr.Close();
      out := wr.out;
    }
  }

  lemma LastFrom(ts: Tables, qs: seq<Seq>)
    requires TablesOk(ts) && AllCodable(ts, qs) && qs != []
    ensures var k := |qs| - 1;
            Codable(ts, qs[k]) && BitsFrom(ts, qs, k) == Extra(qs[k]) && StatesFrom(ts, qs, k) == StartStates(ts, qs[k])
  {
  }

  lemma NextFrom(ts: Tables, qs: seq<Seq>, k: nat)
    requires TablesOk(ts) && AllCodable(ts, qs) && k + 1 < |qs|
    ensures Codable(ts, qs[k])
    ensures BitsFrom(ts, qs, k) == BitsFrom(ts, qs, k + 1) + Transition(ts, StatesFrom(ts, qs, k + 1), qs[k]) + Extra(qs[k])
    ensures StatesFrom(ts, qs, k) == NextStates(ts, StatesFrom(ts, qs, k + 1), qs[k])
  {
    hide Extra, Transition, NextStates;
  }

  /** Codes exist, and no value takes more bits than the containers hold. */
  lemma CodableParts(ts: Tables, q: Seq)
    requires Codable(ts, q)
    ensures SeqOk(q) && LlBits(LlCode(q.litLen)) <= 16 && MlBits(MlCode(q.matchLen)) <= 16 && OfCode(q.offset) <= 30
    ensures Count(ts.ll.cells, LlCode(q.litLen)) >= 1 && Count(ts.ml.cells, MlCode(q.matchLen)) >= 1 && Count(ts.of.cells, OfCode(q.offset)) >= 1
  {
    hide Count, Pow2, LlCode, MlCode;
    LlCodeOk(q.litLen);
    MlCodeOk(q.matchLen);
    Pow2Limits();
    TopRange(q.offset, 31);
  }

  lemma FirstExtra(q: Seq, added: seq<Bit>)
    requires SeqOk(q)
    requires added == [] + BitsOf(q.litLen, LlBits(LlCode(q.litLen))) + BitsOf(q.matchLen, MlBits(MlCode(q.matchLen))) + BitsOf(q.offset, OfCode(q.offset))
    ensures added == Extra(q)
  {
    hide BitsOf, LlBits, MlBits, LlCode, MlCode;
  }

  lemma Stacked(ts: Tables, st: States, q: Seq, before: seq<Bit>, after: seq<Bit>)
    requires TablesOk(ts) && StatesOk(ts, st) && Codable(ts, q)
    requires after == before + StateBits(ts.of, st.of, OfCode(q.offset)) + StateBits(ts.ml, st.ml, MlCode(q.matchLen)) + StateBits(ts.ll, st.ll, LlCode(q.litLen)) + Extra(q)
    ensures after == before + Transition(ts, st, q) + Extra(q)
  {
    hide StateBits, Extra, Codable, LlCode, MlCode;
  }

  /** Offset, match length and literal length bits in one number, the literal length lowest. */
  method PackExtra(q: Seq) returns (extraBits: nat, extraBitsN: nat)
    requires SeqOk(q) && LlBits(LlCode(q.litLen)) <= 16 && MlBits(MlCode(q.matchLen)) <= 16 && OfCode(q.offset) <= 30
    ensures extraBitsN < 64 && extraBits < Pow2(extraBitsN) && BitsOf(extraBits, extraBitsN) == Extra(q)
  {
    hide Pow2, BitsOf, LlBits, MlBits, LlCode, MlCode, OfCode, Low, Shr;
    var ofN, mlN, llN := OfCode(q.offset), MlBits(MlCode(q.matchLen)), LlBits(LlCode(q.litLen));
    ShrLow(q.offset, ofN);
    BitsLow(q.offset, ofN);
    extraBits, extraBitsN := Low(q.offset, ofN), ofN;
    extraBits, extraBitsN := PackOne(extraBits, extraBitsN, q.matchLen, mlN);
    extraBits, extraBitsN := PackOne(extraBits, extraBitsN, q.litLen, llN);
    assert BitsOf(extraBits, extraBitsN) == Extra(q);
  }

  method PackOne(above: nat, n: nat, v: nat, k: nat) returns (packed: nat, m: nat)
    requires above < Pow2(n)
    ensures m == n + k && packed < Pow2(m) && BitsOf(packed, m) == BitsOf(v, k) + BitsOf(above, n)
  {
    hide Pow2, BitsOf, Low, Shr;
    ShrLow(v, k);
    BitsLow(v, k);
    BitsAppend(Low(v, k), k, above, n);
    BitWriter.ContainerFits(Low(v, k), k, above, n);
    packed, m := Shl(above, k) + Low(v, k), n + k;
  }

  /** Writes the state itself. */
  method PutFinal(e: FseEncoder, wr: BitWriter, state: nat)
    requires EncoderOk(e) && wr.Valid() && wr.nBits < 64 && e.Bias() <= state < e.Bias() + |e.cells|
    modifies wr
    ensures wr.Valid() && wr.nBits < 64 && wr.start == old(wr.start) && wr.out[..wr.start] == old(wr.out[..wr.start])
    ensures wr.Added() == old(wr.Added()) + FinalBits(TableOf(e), state - e.Bias())
  {
    hide Pow2, BitsOf, BytesBits, FseEncoder.TablesOk;
    wr.Flush32();
    SameBits(e, state, e.actualTableLog);
    wr.AddBits(state, e.actualTableLog);
  }
}
