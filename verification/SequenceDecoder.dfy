/** Reading the sequences of a block: offsets resolved against the recent ones, lengths checked against the block. */
module SequenceDecoder {
  import opened Bits
  import opened Results
  import opened BitStream
  import opened FseCoding
  import opened FseCoder
  import opened SequenceCodes
  import opened SequenceSpec

  // ----- recent offsets -----

  datatype Offsets = Offsets(o1: nat, o2: nat, o3: nat)

  /** The encoder's side: a recent offset becomes a small number, whose meaning shifts when there are no literals. */
  function MatchOffset(recent: Offsets, offset: nat, lits: nat): (nat, Offsets)
  {
    if lits > 0 then
      if offset == recent.o1 then (1, recent)
      else if offset == recent.o2 then (2, Offsets(offset, recent.o1, recent.o3))
      else if offset == recent.o3 then (3, Offsets(offset, recent.o1, recent.o2))
      else (offset + 3, Offsets(offset, recent.o1, recent.o2))
    else
      if offset == recent.o2 then (1, Offsets(offset, recent.o1, recent.o3))
      else if offset == recent.o3 then (2, Offsets(offset, recent.o1, recent.o2))
      else if offset + 1 == recent.o1 then (3, Offsets(offset, recent.o1, recent.o2))
      else (offset + 3, Offsets(offset, recent.o1, recent.o2))
  }

  /** What a repeat code refers to, before the decoder replaces 0. */
  function Referred(prev: Offsets, o: nat): int
  {
    if o == 3 then prev.o1 - 1 else if o == 1 then prev.o2 else prev.o3
  }

  /** The decoder's side, from the base value of the offset code, its extra bits and their number. */
  function AdjustOffset(prev: Offsets, offset: nat, litLen: nat, offsetB: nat): (nat, Offsets)
  {
    if offsetB > 1 then (offset, Offsets(offset, prev.o1, prev.o2))
    else
      var o := if litLen == 0 then offset + 1 else offset;
      if o == 0 then (prev.o1, prev)
      else
        var raw := Referred(prev, o);
        var temp: nat := if raw <= 0 then 1 else raw;
        (temp, Offsets(temp, prev.o1, if o != 1 then prev.o2 else prev.o3))
  }

  predicate Positive(o: Offsets) { o.o1 >= 1 && o.o2 >= 1 && o.o3 >= 1 }

  /**
   Recent offsets never come to 0, and what a repeat code refers to never comes below 0: the one value that AdjustOffset
   replaces is 0, as in the source.
   */
  lemma StaysPositive(prev: Offsets, offset: nat, litLen: nat, offsetB: nat)
    requires Positive(prev) && (offsetB > 1 ==> offset >= 1)
    ensures var (mo, next) := AdjustOffset(prev, offset, litLen, offsetB); mo >= 1 && Positive(next)
    ensures Referred(prev, if litLen == 0 then offset + 1 else offset) >= 0
  {
  }

  /** So it is over all sequences of a block. */
  lemma {:induction false} BlockStaysPositive(p: Progress, vs: seq<Value>, maxBlock: nat)
    requires Positive(p.prev) && forall k :: 0 <= k < |vs| ==> vs[k].moB > 1 ==> vs[k].mo >= 1
    requires CheckSeqs(p, vs, maxBlock).Ok?
    ensures var (xs, p') := CheckSeqs(p, vs, maxBlock).value; Positive(p'.prev) && forall k :: 0 <= k < |xs| ==> xs[k].mo >= 1
    decreases |vs|
  {
    hide AdjustOffset;
    if vs != [] {
      StaysPositive(p.prev, vs[0].mo, vs[0].ll, vs[0].moB);
      BlockStaysPositive(CheckSeq(p, vs[0], maxBlock).value.1, vs[1..], maxBlock);
    }
  }

  /** Coding an offset and decoding it again gives the offset back and leaves both sides with the same recent offsets. */
  lemma OffsetUndone(recent: Offsets, offset: nat, lits: nat)
    requires 1 <= offset && offset + 3 < OF_LIMIT
    ensures var (code, next) := MatchOffset(recent, offset, lits);
            1 <= code < OF_LIMIT && AdjustOffset(recent, OfDecoded(code), lits, OfCode(code)) == (offset, next)
  {
    hide Pow2;
    var code := MatchOffset(recent, offset, lits).0;
    BitLenRange(code);
    SmallPowers();
    if code >= 4 {
      BitLenFour(code);
    } else {
      assert code < Pow2(2);
      BitLenBound(code, 2);
    }
  }

  // ----- a block -----

  const MAX_MATCH_LEN: nat := 131074
  const MAX_BLOCK_SIZE: nat := 0x2_0000

  /** A sequence to execute: literals, then a match `mo` bytes back. */
  datatype SeqVals = SeqVals(ll: nat, mo: nat, ml: nat)

  function Resolve(prev: Offsets, v: Value): (SeqVals, Offsets)
  {
    var (mo, next) := AdjustOffset(prev, v.mo, v.ll, v.moB);
    (SeqVals(v.ll, mo, v.ml), next)
  }

  datatype Progress = Progress(prev: Offsets, size: nat, lits: nat)

  /** One decoded sequence against the block: a match needs an offset, lengths and literals must fit. */
  function CheckSeq(p: Progress, v: Value, maxBlock: nat): Result<(SeqVals, Progress)>
  {
    var (x, next) := Resolve(p.prev, v);
    if x.mo == 0 && x.ml > 0 then Err(CorruptStream)
    else if x.ml > MAX_MATCH_LEN then Err(CorruptStream)
    else if p.size + x.ll + x.ml > maxBlock then Err(CorruptStream)
    else if x.ll > p.lits then Err(CorruptStream)
    else Ok((x, Progress(next, p.size + x.ll + x.ml, p.lits - x.ll)))
  }

  function CheckSeqs(p: Progress, vs: seq<Value>, maxBlock: nat): Result<(seq<SeqVals>, Progress)>
    decreases |vs|
  {
    if vs == [] then Ok(([], p))
    else
      var (x, p1) :- CheckSeq(p, vs[0], maxBlock);
      var (xs, p2) :- CheckSeqs(p1, vs[1..], maxBlock);
      Ok(([x] + xs, p2))
  }

  /** What decoding the sequences of a block yields: the sequences to execute, the recent offsets, and the size of the block. */
  function DecodeBlock(bs: Bases, ts: Tables, s: seq<Bit>, n: nat, prev: Offsets, lits: nat, maxBlock: nat): Result<(seq<SeqVals>, Progress)>
    requires TablesOk(ts) && BasesFor(bs, ts) && n >= 1
  {
    var vs :- DecodeSeqs(bs, ts, s, n);
    var (xs, p) :- CheckSeqs(Progress(prev, 0, lits), vs, maxBlock);
    if p.size + p.lits > maxBlock then Err(CorruptStream) else Ok((xs, p.(size := p.size + p.lits)))
  }

  /** The same, one sequence after another. */
  function DecodeOn(bs: Bases, ts: Tables, st: States, s: seq<Bit>, n: nat, p: Progress, maxBlock: nat): Result<(seq<SeqVals>, seq<Bit>, Progress)>
    requires TablesOk(ts) && StatesOk(ts, st) && BasesFor(bs, ts) && n >= 1
    decreases n
  {
    var (v, s1) :- ReadValue(bs, ts, st, s);
    var (x, p1) :- CheckSeq(p, v, maxBlock);
    if n == 1 then Ok(([x], s1, p1))
    else
      var (st', s2) :- ReadTransition(ts, st, s1);
      var (xs, s3, p2) :- DecodeOn(bs, ts, st', s2, n - 1, p1, maxBlock);
      Ok(([x] + xs, s3, p2))
  }

  /** Checking on the way accepts the same blocks as checking at the end. */
  lemma {:induction false} DecodeOnIs(bs: Bases, ts: Tables, st: States, s: seq<Bit>, n: nat, p: Progress, maxBlock: nat)
    requires TablesOk(ts) && StatesOk(ts, st) && BasesFor(bs, ts) && n >= 1
    ensures var r := DecodeOn(bs, ts, st, s, n, p, maxBlock);
            match ReadSeqs(bs, ts, st, s, n)
            case Err(_) => r.Err?
            case Ok((vs, rest)) =>
              match CheckSeqs(p, vs, maxBlock)
              case Err(_) => r.Err?
              case Ok((xs, p')) => r == Ok((xs, rest, p'))
    decreases n
  {
    hide ReadValue, ReadTransition, CheckSeq, BasesFor, TablesOk, CheckSeqs;
    var r, rv := DecodeOn(bs, ts, st, s, n, p, maxBlock), ReadValue(bs, ts, st, s);
    if rv.Err? {
      assert r.Err? && ReadSeqs(bs, ts, st, s, n).Err?;
      return;
    }
    var (v, s1) := rv.value;
    var rc := CheckSeq(p, v, maxBlock);
    if rc.Err? { assert r.Err?; }
    if n == 1 {
      CheckOne(p, v, maxBlock);
      assert ReadSeqs(bs, ts, st, s, n) == Ok(([v], s1));
      return;
    }
    var rt := ReadTransition(ts, st, s1);
    if rt.Err? {
      assert r.Err? && ReadSeqs(bs, ts, st, s, n).Err?;
      return;
    }
    var (st', s2) := rt.value;
    var rs := ReadSeqs(bs, ts, st', s2, n - 1);
    if rs.Ok? {
      CheckCons(p, v, rs.value.0, maxBlock);
      assert ReadSeqs(bs, ts, st, s, n) == Ok(([v] + rs.value.0, rs.value.1));
    } else {
      assert ReadSeqs(bs, ts, st, s, n).Err?;
    }
    if rc.Ok? { DecodeOnIs(bs, ts, st', s2, n - 1, rc.value.1, maxBlock); }
  }

  lemma CheckOne(p: Progress, v: Value, maxBlock: nat)
    ensures match CheckSeq(p, v, maxBlock)
            case Err(_) => CheckSeqs(p, [v], maxBlock).Err?
            case Ok((x, p1)) => CheckSeqs(p, [v], maxBlock) == Ok(([x], p1))
  {
    hide CheckSeq;
    assert [v][1..] == [];
    var rc := CheckSeq(p, v, maxBlock);
    if rc.Ok? {
      assert CheckSeqs(rc.value.1, [], maxBlock) == Ok(([], rc.value.1));
      assert [rc.value.0] + [] == [rc.value.0];
    }
  }

  lemma CheckCons(p: Progress, v: Value, vs: seq<Value>, maxBlock: nat)
    ensures match CheckSeq(p, v, maxBlock)
            case Err(_) => CheckSeqs(p, [v] + vs, maxBlock).Err?
            case Ok((x, p1)) =>
              match CheckSeqs(p1, vs, maxBlock)
              case Err(_) => CheckSeqs(p, [v] + vs, maxBlock).Err?
              case Ok((xs, p2)) => CheckSeqs(p, [v] + vs, maxBlock) == Ok(([x] + xs, p2))
  {
    hide CheckSeq;
    assert ([v] + vs)[1..] == vs && ([v] + vs)[0] == v;
  }

  // ----- where the decoder's loop stands -----

  /** Everything one loop over the stream finds: the sequences, the bits left, the progress. */
  function Total(bs: Bases, ts: Tables, s: seq<Bit>, n: nat, p: Progress, maxBlock: nat): Result<(seq<SeqVals>, seq<Bit>, Progress)>
    requires TablesOk(ts) && BasesFor(bs, ts) && n >= 1
  {
    var (st, s1) :- ReadStates(ts, s);
    DecodeOn(bs, ts, st, s1, n, p, maxBlock)
  }

  /** The block is the total, when every bit is used and the rest of the literals fits. */
  lemma BlockOf(bs: Bases, ts: Tables, s: seq<Bit>, n: nat, p: Progress, maxBlock: nat)
    requires TablesOk(ts) && BasesFor(bs, ts) && n >= 1 && p.size == 0
    ensures match Total(bs, ts, s, n, p, maxBlock)
            case Err(_) => DecodeBlock(bs, ts, s, n, p.prev, p.lits, maxBlock).Err?
            case Ok((xs, rest, p')) =>
              if rest != [] || p'.size + p'.lits > maxBlock then DecodeBlock(bs, ts, s, n, p.prev, p.lits, maxBlock).Err?
              else DecodeBlock(bs, ts, s, n, p.prev, p.lits, maxBlock) == Ok((xs, p'.(size := p'.size + p'.lits)))
  {
    hide ReadStates, ReadSeqs, CheckSeqs, DecodeOn, TablesOk, BasesFor;
    var r := ReadStates(ts, s);
    if r.Ok? {
      DecodeOnIs(bs, ts, r.value.0, r.value.1, n, p, maxBlock);
    }
  }

  function Prefixed(xs: seq<SeqVals>, r: Result<(seq<SeqVals>, seq<Bit>, Progress)>): Result<(seq<SeqVals>, seq<Bit>, Progress)>
  {
    match r
    case Err(e) => Err(e)
    case Ok((ys, rest, p)) => Ok((xs + ys, rest, p))
  }

  /** The total is what was found and what the rest of the stream holds; once bits are missing it is an error. */
  ghost predicate Going(bs: Bases, ts: Tables, total: Result<(seq<SeqVals>, seq<Bit>, Progress)>, xs: seq<SeqVals>, rest: Result<seq<Bit>>,
                        st: States, m: nat, p: Progress, maxBlock: nat)
    requires TablesOk(ts) && BasesFor(bs, ts) && StatesOk(ts, st) && m >= 1
  {
    match rest
    case Err(_) => total.Err?
    case Ok(s) => total == Prefixed(xs, DecodeOn(bs, ts, st, s, m, p, maxBlock)) || (total.Err? && DecodeOn(bs, ts, st, s, m, p, maxBlock).Err?)
  }

  lemma GoingStarts(bs: Bases, ts: Tables, s: seq<Bit>, n: nat, p: Progress, maxBlock: nat, rest: Result<seq<Bit>>)
    requires TablesOk(ts) && BasesFor(bs, ts) && n >= 1
    requires match ReadStates(ts, s) case Err(_) => rest.Err? case Ok((_, s1)) => rest == Ok(s1)
    ensures forall st :: StatesOk(ts, st) && (ReadStates(ts, s).Ok? ==> st == ReadStates(ts, s).value.0) ==>
              Going(bs, ts, Total(bs, ts, s, n, p, maxBlock), [], rest, st, n, p, maxBlock)
  {
    hide ReadStates, DecodeOn, TablesOk, BasesFor;
    var r := ReadStates(ts, s);
    if r.Ok? {
      var x := DecodeOn(bs, ts, r.value.0, r.value.1, n, p, maxBlock);
      if x.Ok? { assert [] + x.value.0 == x.value.0; }
    }
  }

  lemma GoingBad(bs: Bases, ts: Tables, total: Result<(seq<SeqVals>, seq<Bit>, Progress)>, xs: seq<SeqVals>, rest: Result<seq<Bit>>,
                 st: States, m: nat, p: Progress, maxBlock: nat)
    requires TablesOk(ts) && BasesFor(bs, ts) && StatesOk(ts, st) && m >= 1
    requires Going(bs, ts, total, xs, rest, st, m, p, maxBlock) && rest.Err?
    ensures total.Err?
  {
  }

  lemma GoingLost(bs: Bases, ts: Tables, total: Result<(seq<SeqVals>, seq<Bit>, Progress)>, xs: seq<SeqVals>, rest: Result<seq<Bit>>,
                  st: States, m: nat, p: Progress, maxBlock: nat)
    requires TablesOk(ts) && BasesFor(bs, ts) && StatesOk(ts, st) && m >= 1
    ensures rest.Err? && total.Err? ==> Going(bs, ts, total, xs, rest, st, m, p, maxBlock)
  {
  }

  /** Reading a value decides: no value, or one that fails its checks, is an error of the total; the last one completes it. */
  lemma GoingValue(bs: Bases, ts: Tables, total: Result<(seq<SeqVals>, seq<Bit>, Progress)>, xs: seq<SeqVals>, rest: Result<seq<Bit>>,
                   st: States, m: nat, p: Progress, maxBlock: nat, v: Value, rest1: Result<seq<Bit>>)
    requires TablesOk(ts) && BasesFor(bs, ts) && StatesOk(ts, st) && m >= 1
    requires Going(bs, ts, total, xs, rest, st, m, p, maxBlock)
    requires match rest
             case Err(_) => rest1.Err?
             case Ok(s) => match ReadValue(bs, ts, st, s) case Err(_) => rest1.Err? case Ok((x, s')) => v == x && rest1 == Ok(s')
    ensures rest1.Err? ==> total.Err?
    ensures CheckSeq(p, v, maxBlock).Err? ==> total.Err?
    ensures rest1.Ok? && CheckSeq(p, v, maxBlock).Ok? ==>
              var (x, p1) := CheckSeq(p, v, maxBlock).value;
              if m == 1 then total == Ok((xs + [x], rest1.value, p1))
              else match ReadTransition(ts, st, rest1.value)
                   case Err(_) => total.Err?
                   case Ok((st', s2)) =>
                     && StatesOk(ts, st')
                     && Going(bs, ts, total, xs + [x], Ok(s2), st', m - 1, p1, maxBlock)
  {
    hide ReadValue, CheckSeq, ReadTransition, TablesOk, BasesFor;
    if rest1.Ok? && CheckSeq(p, v, maxBlock).Ok? && m > 1 {
      var (x, p1) := CheckSeq(p, v, maxBlock).value;
      var rt := ReadTransition(ts, st, rest1.value);
      if rt.Ok? {
        var y := DecodeOn(bs, ts, rt.value.0, rt.value.1, m - 1, p1, maxBlock);
        if y.Ok? { assert xs + ([x] + y.value.0) == xs + [x] + y.value.0; }
      }
    }
  }

  lemma StatesOrNot(ts: Tables, s: seq<Bit>, st: States, rest: Result<seq<Bit>>)
    requires TablesOk(ts) && StatesOk(ts, st)
    requires match Pop(s, ts.ll.log)
             case Err(_) => rest.Err?
             case Ok((ll, s1)) =>
               match Pop(s1, ts.of.log)
               case Err(_) => rest.Err?
               case Ok((of, s2)) =>
                 match Pop(s2, ts.ml.log)
                 case Err(_) => rest.Err?
                 case Ok((ml, s3)) => rest == Ok(s3) && st == States(ll, ml, of)
    ensures match ReadStates(ts, s) case Err(_) => rest.Err? case Ok((st', s1)) => rest == Ok(s1) && st == st'
  {
    hide Pop, TablesOk;
  }

  // ----- the decoder -----

  /** The decoders of a block, the recent offsets and the number of literals. */
  class SequenceDecs {
    const litLengths: FseDecoder
    const matchLengths: FseDecoder
    const offsets: FseDecoder
    const bases: Bases
    var prevOffset: Offsets
    var seqSize: nat

    constructor (ll: FseDecoder, ml: FseDecoder, of: FseDecoder, bs: Bases, prev: Offsets)
      ensures litLengths == ll && matchLengths == ml && offsets == of && bases == bs && prevOffset == prev
    {
      litLengths, matchLengths, offsets, bases, prevOffset, seqSize := ll, ml, of, bs, prev, 0;
    }

    /** The three tables are ready and small enough for the bit container. */
    ghost predicate Valid()
      reads this, litLengths, matchLengths, offsets, litLengths.dt, matchLengths.dt, offsets.dt
    {
      && litLengths.Valid(bases.ll) && matchLengths.Valid(bases.ml) && offsets.Valid(bases.of)
      && litLengths.actualTableLog <= 9 && matchLengths.actualTableLog <= 9 && offsets.actualTableLog <= 9
      && litLengths.maxBits <= 16 && matchLengths.maxBits <= 16 && offsets.maxBits <= 31
    }

    ghost function Ts(): Tables
      reads this, litLengths, matchLengths, offsets
    {
      Tables(Table(litLengths.cells, litLengths.actualTableLog), Table(matchLengths.cells, matchLengths.actualTableLog),
             Table(offsets.cells, offsets.actualTableLog))
    }

    ghost predicate At(ll: DecSymbol, ml: DecSymbol, of: DecSymbol, st: States)
      reads this, litLengths, matchLengths, offsets, litLengths.dt, matchLengths.dt, offsets.dt
      requires Valid()
    {
      && StatesOk(Ts(), st)
      && ll == litLengths.dt[st.ll] && ml == matchLengths.dt[st.ml] && of == offsets.dt[st.of]
    }

    lemma Ready()
      requires Valid()
      ensures TablesOk(Ts()) && BasesFor(bases, Ts())
    {
    }

    /** What the entry of a cell says. */
    static lemma EntryOf(d: FseDecoder, bs: seq<BaseOffset>, u: nat)
      requires d.Valid(bs) && u < |d.cells|
      ensures d.cells[u] < |bs| && d.dt[u].addBits == bs[d.cells[u]].addBits <= d.maxBits && d.dt[u].baseline == bs[d.cells[u]].baseLine
      ensures d.dt[u].nbBits == NbBits(d.cells, d.actualTableLog, u) <= d.actualTableLog && d.dt[u].newState == Base(d.cells, d.actualTableLog, u)
    {
      hide Pow2, BitLen, Base;
      NextStateLen(d.cells, d.actualTableLog, u);
    }

    /** The first state of a table. */
    static method InitState(d: FseDecoder, bs: seq<BaseOffset>, br: BitReader) returns (u: nat)
      requires d.Valid(bs) && d.actualTableLog <= 9 && br.Valid() && br.bitsRead < 128
      modifies br
      ensures br.Valid() && u < |d.cells| && br.bitsRead <= old(br.bitsRead) + 9
      ensures match old(br.Rest())
              case Err(_) => br.Rest().Err?
              case Ok(s) => match Pop(s, d.actualTableLog)
                            case Err(_) => br.Rest().Err?
                            case Ok((x, s')) => u == x && br.Rest() == Ok(s')
    {
      hide Pow2, BitReader.Remaining, Pop;
      br.Fill();
      u := br.GetBits(d.actualTableLog);
    }

    /** One sequence's values, offsets not resolved yet. The container is refilled often enough for every code. */
    method Next(br: BitReader, llState: DecSymbol, mlState: DecSymbol, ofState: DecSymbol, ghost st: States) returns (v: Value)
      requires Valid() && At(llState, mlState, ofState, st) && br.Valid() && br.bitsRead < 128
      modifies br
      ensures br.Valid() && br.bitsRead <= old(br.bitsRead) + 64 && (br.cursor == 0 || br.bitsRead <= 32)
      ensures TablesOk(Ts()) && BasesFor(bases, Ts())
      ensures match old(br.Rest())
              case Err(_) => br.Rest().Err?
              case Ok(s) => match ReadValue(bases, Ts(), st, s)
                            case Err(_) => br.Rest().Err?
                            case Ok((x, s')) => v == x && br.Rest() == Ok(s')
    {
      hide Pow2, BitReader.Remaining, Pop, FseDecoder.Valid, TablesOk, BasesFor;
      Ready();
      EntryOf(litLengths, bases.ll, st.ll);
      EntryOf(matchLengths, bases.ml, st.ml);
      EntryOf(offsets, bases.of, st.of);
      var maxBits := litLengths.maxBits + matchLengths.maxBits + offsets.maxBits;
      // 4 + ((maxOffsetBits + 16 + 16) >> 3): bytes enough for three fills of four
      var fast := br.cursor > 11;
      if fast { br.FillFast(); } else { br.Fill(); }
      var mo := br.GetBits(ofState.addBits);
      if maxBits > 32 {
        if fast { br.FillFast(); } else { br.Fill(); }
      }
      var ml := br.GetBits(mlState.addBits);
      var ll := br.GetBits(llState.addBits);
      v := Value(llState.baseline + ll, ofState.baseline + mo, mlState.baseline + ml, ofState.addBits);
      if fast { br.FillFast(); } else { br.Fill(); }
    }

    /** Moves all three states with the bits of one read. */
    method Advance(br: BitReader, llState: DecSymbol, mlState: DecSymbol, ofState: DecSymbol, ghost st: States)
      returns (ll: DecSymbol, ml: DecSymbol, of: DecSymbol, ghost st': States)
      requires Valid() && At(llState, mlState, ofState, st) && br.Valid() && br.bitsRead < 192 && (br.cursor == 0 || br.bitsRead <= 32)
      modifies br
      ensures br.Valid() && br.bitsRead <= old(br.bitsRead) + 27 && At(ll, ml, of, st') && TablesOk(Ts())
      ensures match old(br.Rest())
              case Err(_) => br.Rest().Err?
              case Ok(s) => match ReadTransition(Ts(), st, s)
                            case Err(_) => br.Rest().Err?
                            case Ok((x, s')) => st' == x && br.Rest() == Ok(s')
    {
      hide Pow2, BitReader.Remaining, Pop, FseDecoder.Valid, TablesOk, BasesFor, NbBits, Base, Shr, Low;
      Ready();
      EntryOf(litLengths, bases.ll, st.ll);
      EntryOf(matchLengths, bases.ml, st.ml);
      EntryOf(offsets, bases.of, st.of);
      var a, b, c := llState.nbBits, mlState.nbBits, ofState.nbBits;
      ghost var rest := br.Rest();
      if rest.Ok? { PopThree(rest.value, a, b, c); }
      var bits := br.GetBits(a + b + c);
      SplitBelow(bits, a, b, c);
      var llLow, mlLow, ofLow := Shr(bits, b + c), Low(Shr(bits, c), b), Low(bits, c);
      SizesOf(Ts());
      GoInside(Ts().ll, st.ll, llLow);
      GoInside(Ts().ml, st.ml, mlLow);
      GoInside(Ts().of, st.of, ofLow);
      DtSizes();
      ll, ml, of := litLengths.dt[llState.newState + llLow], matchLengths.dt[mlState.newState + mlLow], offsets.dt[ofState.newState + ofLow];
      st' := States(llState.newState + llLow, mlState.newState + mlLow, ofState.newState + ofLow);
    }

    static lemma SplitBelow(bits: nat, a: nat, b: nat, c: nat)
      requires bits < Pow2(a + b + c)
      ensures Shr(bits, b + c) < Pow2(a) && Low(Shr(bits, c), b) < Pow2(b) && Low(bits, c) < Pow2(c)
    {
      hide Pow2, Shr, Low;
      ShrLow(bits, b + c);
      ShrLow(Shr(bits, c), b);
      ShrLow(bits, c);
      Pow2Add(b + c, a);
      BitWriter.QuotientBelow(Shr(bits, b + c), Pow2(b + c), Pow2(a));
    }

    static lemma SizesOf(ts: Tables)
      requires TablesOk(ts)
      ensures SizeOk(ts.ll) && SizeOk(ts.ml) && SizeOk(ts.of)
    {
    }

    lemma DtSizes()
      requires Valid()
      ensures litLengths.dt.Length == |litLengths.cells| && matchLengths.dt.Length == |matchLengths.cells| && offsets.dt.Length == |offsets.cells|
    {
    }

    /** Reads the initial states, then n sequences; succeeds exactly on the streams the specification accepts. */
    method Decode(input: seq<Byte>, n: nat, lits: nat, windowSize: nat) returns (r: Result<seq<SeqVals>>)
      requires Valid() && n >= 1
      modifies this`prevOffset, this`seqSize
      ensures TablesOk(Ts()) && BasesFor(bases, Ts())
      ensures input == [] || input[|input| - 1] == 0 ==> r.Err?
      ensures r.Ok? ==> exists s :: Closed(s, input)
      ensures forall s :: Closed(s, input) ==>
                match DecodeBlock(bases, Ts(), s, n, old(prevOffset), lits, if windowSize < MAX_BLOCK_SIZE then windowSize else MAX_BLOCK_SIZE)
                case Err(_) => r.Err?
                case Ok((xs, p)) => r == Ok(xs) && prevOffset == p.prev && seqSize == p.size
    {
      hide Pow2, BitReader.Remaining, FseDecoder.Valid, TablesOk, BasesFor, DecodeBlock, Closed;
      Ready();
      var br := new BitReader();
      var err := br.Init(input);
      if err.Some? {
        NotClosed(input);
        return Err(CorruptStream);
      }
      ghost var s := br.Remaining();
      forall s' | Closed(s', input)
        ensures s' == s
      {
        ClosedOnce(s, s', input);
      }
      assert br.Rest() == Ok(s);
      r := DecodeFrom(br, n, lits, windowSize, s);
    }

    /** One sequence read, resolved and checked. */
    method DecodeOne(br: BitReader, ll: DecSymbol, ml: DecSymbol, of: DecSymbol, ghost st: States, ghost m: nat, lits: nat, maxBlock: nat,
                     ghost total: Result<(seq<SeqVals>, seq<Bit>, Progress)>, ghost xs: seq<SeqVals>)
      returns (r: Result<SeqVals>, litRemain: nat)
      requires Valid() && br.Valid() && br.bitsRead < 192 && m >= 1 && At(ll, ml, of, st) && TablesOk(Ts()) && BasesFor(bases, Ts())
      requires Going(bases, Ts(), total, xs, br.Rest(), st, m, Progress(prevOffset, seqSize, lits), maxBlock)
      modifies this`prevOffset, this`seqSize, br
      ensures br.Valid() && (r.Err? ==> total.Err?)
      ensures r.Ok? ==> r.value.ll <= lits && litRemain == lits - r.value.ll && (r.value.mo == 0 ==> r.value.ml == 0)
      ensures r.Ok? ==> br.bitsRead < 129 && (br.cursor == 0 || br.bitsRead <= 32)
      ensures r.Ok? ==>
                match br.Rest()
                case Err(_) => total.Err?
                case Ok(s1) =>
                  var p1 := Progress(prevOffset, seqSize, litRemain);
                  if m == 1 then total == Ok((xs + [r.value], s1, p1))
                  else match ReadTransition(Ts(), st, s1)
                       case Err(_) => total.Err?
                       case Ok((st', s2)) => Going(bases, Ts(), total, xs + [r.value], Ok(s2), st', m - 1, p1, maxBlock)
    {
      hide Pow2, BitReader.Remaining, FseDecoder.Valid, TablesOk, BasesFor, ReadTransition, ReadValue, DecodeOn, AdjustOffset, Prefixed;
      ghost var rest, before := br.Rest(), Progress(prevOffset, seqSize, lits);
      litRemain := lits;
      if br.cursor <= 11 && br.bitsRead > 64 {
        GoingBad(bases, Ts(), total, xs, rest, st, m, before, maxBlock);
        return Err(UnexpectedEof), lits;
      }
      var value := Next(br, ll, ml, of, st);
      GoingValue(bases, Ts(), total, xs, rest, st, m, before, maxBlock, value, br.Rest());
      var (x, next) := Resolve(prevOffset, value);
      if x.mo == 0 && x.ml > 0 {
        return Err(CorruptStream), lits;
      }
      if x.ml > MAX_MATCH_LEN {
        return Err(CorruptStream), lits;
      }
      if seqSize + x.ll + x.ml > maxBlock {
        return Err(CorruptStream), lits;
      }
      if x.ll > lits {
        return Err(CorruptStream), lits;
      }
      prevOffset, seqSize, litRemain := next, seqSize + x.ll + x.ml, lits - x.ll;
      return Ok(x), litRemain;
    }

    /** Reads the initial states and the sequences from a reader that stands at the end mark. */
    method DecodeFrom(br: BitReader, n: nat, lits: nat, windowSize: nat, ghost s: seq<Bit>) returns (r: Result<seq<SeqVals>>)
      requires Valid() && n >= 1 && br.Valid() && br.bitsRead <= 64 && br.Rest() == Ok(s)
      modifies this`prevOffset, this`seqSize, br
      ensures TablesOk(Ts()) && BasesFor(bases, Ts())
      ensures match DecodeBlock(bases, Ts(), s, n, old(prevOffset), lits, if windowSize < MAX_BLOCK_SIZE then windowSize else MAX_BLOCK_SIZE)
              case Err(_) => r.Err?
              case Ok((xs, p)) => r == Ok(xs) && prevOffset == p.prev && seqSize == p.size
    {
      hide Pow2, BitReader.Remaining, FseDecoder.Valid, TablesOk, BasesFor, DecodeBlock, Pop, ReadStates, Going;
      Ready();
      var maxBlock := if windowSize < MAX_BLOCK_SIZE then windowSize else MAX_BLOCK_SIZE;
      ghost var total, st;
      var ll, ml, of;
      ll, ml, of, st, total := Start(br, n, lits, maxBlock, s);
      var xs, litRemain;
      xs, litRemain := DecodeLoop(br, ll, ml, of, st, n, lits, maxBlock, total);
      if xs.Err? {
        return Err(xs.error);
      }
      seqSize := seqSize + litRemain;
      if br.bitsRead <= 64 { br.AllRead(); }
      if seqSize > maxBlock {
        return Err(CorruptStream);
      }
      var err := br.Close();
      if err.Some? {
        return Err(CorruptStream);
      }
      return xs;
    }

    /** Reads the initial states. */
    method Start(br: BitReader, n: nat, lits: nat, maxBlock: nat, ghost s: seq<Bit>)
      returns (ll: DecSymbol, ml: DecSymbol, of: DecSymbol, ghost st: States, ghost total: Result<(seq<SeqVals>, seq<Bit>, Progress)>)
      requires Valid() && n >= 1 && br.Valid() && br.bitsRead <= 64 && br.Rest() == Ok(s)
      modifies this`seqSize, br
      ensures seqSize == 0 && br.Valid() && br.bitsRead < 192
      ensures TablesOk(Ts()) && BasesFor(bases, Ts()) && At(ll, ml, of, st)
      ensures Going(bases, Ts(), total, [], br.Rest(), st, n, Progress(prevOffset, 0, lits), maxBlock)
      ensures match total
              case Err(_) => DecodeBlock(bases, Ts(), s, n, prevOffset, lits, maxBlock).Err?
              case Ok((xs, rest, p')) =>
                if rest != [] || p'.size + p'.lits > maxBlock then DecodeBlock(bases, Ts(), s, n, prevOffset, lits, maxBlock).Err?
                else DecodeBlock(bases, Ts(), s, n, prevOffset, lits, maxBlock) == Ok((xs, p'.(size := p'.size + p'.lits)))
    {
      hide Pow2, BitReader.Remaining, FseDecoder.Valid, TablesOk, BasesFor, DecodeBlock, Pop, ReadStates, Going;
      Ready();
      ghost var p := Progress(prevOffset, 0, lits);
      var u := InitState(litLengths, bases.ll, br);
      var w := InitState(offsets, bases.of, br);
      var v := InitState(matchLengths, bases.ml, br);
      st := States(u, v, w);
      DtSizes();
      StatesOrNot(Ts(), s, st, br.Rest());
      BlockOf(bases, Ts(), s, n, p, maxBlock);
      total := Total(bases, Ts(), s, n, p, maxBlock);
      GoingStarts(bases, Ts(), s, n, p, maxBlock, br.Rest());
      seqSize := 0;
      ll, ml, of := litLengths.dt[u], matchLengths.dt[v], offsets.dt[w];
    }

    method DecodeLoop(br: BitReader, ll0: DecSymbol, ml0: DecSymbol, of0: DecSymbol, ghost st0: States, n: nat, lits: nat, maxBlock: nat,
                      ghost total: Result<(seq<SeqVals>, seq<Bit>, Progress)>)
      returns (r: Result<seq<SeqVals>>, litRemain: nat)
      requires Valid() && br.Valid() && br.bitsRead < 192 && n >= 1 && At(ll0, ml0, of0, st0) && TablesOk(Ts()) && BasesFor(bases, Ts())
      requires Going(bases, Ts(), total, [], br.Rest(), st0, n, Progress(prevOffset, seqSize, lits), maxBlock)
      modifies this`prevOffset, this`seqSize, br
      ensures br.Valid() && (r.Ok? ==> br.cursor == 0 || br.bitsRead <= 32)
      ensures r.Err? || br.Rest().Err? ==> total.Err?
      ensures r.Ok? && br.Rest().Ok? ==> total == Ok((r.value, br.Rest().value, Progress(prevOffset, seqSize, litRemain)))
    {
      hide Pow2, BitReader.Remaining, FseDecoder.Valid, TablesOk, BasesFor, Going, ReadTransition;
      var ll, ml, of, i := ll0, ml0, of0, n;
      ghost var st := st0;
      var xs: seq<SeqVals> := [];
      litRemain := lits;
      while true
        invariant Valid() && br.Valid() && br.bitsRead < 192 && 1 <= i <= n && At(ll, ml, of, st)
        invariant TablesOk(Ts()) && BasesFor(bases, Ts())
        invariant Going(bases, Ts(), total, xs, br.Rest(), st, i, Progress(prevOffset, seqSize, litRemain), maxBlock)
        decreases i
      {
        var x;
        x, litRemain := DecodeOne(br, ll, ml, of, st, i, litRemain, maxBlock, total, xs);
        if x.Err? {
          return Err(x.error), litRemain;
        }
        xs := xs + [x.value];
        if i == 1 {
          return Ok(xs), litRemain;
        }
        ll, ml, of, st := Advance(br, ll, ml, of, st);
        i := i - 1;
        GoingLost(bases, Ts(), total, xs, br.Rest(), st, i, Progress(prevOffset, seqSize, litRemain), maxBlock);
      }
    }

    static lemma NotClosed(input: seq<Byte>)
      requires input == [] || input[|input| - 1] == 0
      ensures forall s :: !Closed(s, input)
    {
      forall s
        ensures !Closed(s, input)
      {
        if Closed(s, input) {
          var pad: nat :| pad < 8 && BytesBits(input) == s + [1] + Zeros(pad);
          MarkAt(s, pad, BytesBits(input));
          if input != [] { ZeroBits(8); }
        }
      }
    }
  }
}
