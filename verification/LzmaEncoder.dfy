/** The LZMA encoder: operations chosen by the match finder, written to the range coder. */
module LzmaEncoder {
  import opened Bits
  import opened Results
  import opened Cells
  import opened RangeCoder
  import opened RangeSpec
  import opened CodecSpec
  import opened OpSpec
  import opened LzmaBuffer
  import opened LzmaCoder
  import HashTables
  import LzmaSize

  // ----- one more operation at the end of a list -----

  lemma {:induction false} ValidOpsSnoc(st: LzState, hist: seq<Byte>, cap: nat, ops: seq<Op>, op: Op)
    requires ValidOps(st, hist, cap, ops)
    requires ValidOp(FinalState(st, hist, cap, ops), Expand(st, hist, cap, ops), cap, op)
    ensures ValidOps(st, hist, cap, ops + [op])
    ensures FinalState(st, hist, cap, ops + [op]) == NextState(FinalState(st, hist, cap, ops), op)
    ensures Expand(st, hist, cap, ops + [op]) == Apply(Expand(st, hist, cap, ops), op)
    decreases |ops|
  {
    if ops == [] {
      assert [] + [op] == [op] && [op][1..] == [];
      var st', hist' := NextState(st, op), Apply(hist, op);
      assert ValidOps(st', hist', cap, []);
    } else {
      assert (ops + [op])[0] == ops[0] && (ops + [op])[1..] == ops[1..] + [op];
      ValidOpsSnoc(NextState(st, ops[0]), Apply(hist, ops[0]), cap, ops[1..], op);
    }
  }

  lemma {:induction false} OpsEventsSnoc(st: LzState, props: Props, hist: seq<Byte>, cap: nat, ops: seq<Op>, op: Op)
    requires PropsOk(props) && ValidOps(st, hist, cap, ops) && ValidOps(st, hist, cap, ops + [op])
    requires ValidOp(FinalState(st, hist, cap, ops), Expand(st, hist, cap, ops), cap, op)
    ensures var st', hist' := FinalState(st, hist, cap, ops), Expand(st, hist, cap, ops);
            OpsEvents(st, props, hist, cap, ops + [op], false) ==
            OpsEvents(st, props, hist, cap, ops, false) + OpEvents(st', props, ContextOf(st', hist', cap), op)
    decreases |ops|
  {
    hide OpEvents, ContextOf;
    if ops == [] {
      assert [] + [op] == [op] && [op][1..] == [];
      assert OpsEvents(NextState(st, op), props, Apply(hist, op), cap, [], false) == [];
      assert OpsEvents(st, props, hist, cap, [op], false) == OpEvents(st, props, ContextOf(st, hist, cap), op) + [];
    } else {
      assert (ops + [op])[0] == ops[0] && (ops + [op])[1..] == ops[1..] + [op];
      OpsEventsSnoc(NextState(st, ops[0]), props, Apply(hist, ops[0]), cap, ops[1..], op);
    }
  }

  lemma {:induction false} OpsEventsMarker(st: LzState, props: Props, hist: seq<Byte>, cap: nat, ops: seq<Op>)
    requires PropsOk(props) && ValidOps(st, hist, cap, ops)
    ensures var st', hist' := FinalState(st, hist, cap, ops), Expand(st, hist, cap, ops);
            OpsEvents(st, props, hist, cap, ops, true) ==
            OpsEvents(st, props, hist, cap, ops, false) + OpEvents(st', props, ContextOf(st', hist', cap), EOS_MATCH)
    decreases |ops|
  {
    hide OpEvents, ContextOf;
    if ops != [] {
      OpsEventsMarker(NextState(st, ops[0]), props, Apply(hist, ops[0]), cap, ops[1..]);
    }
  }

  /** An operation that describes the input is valid, and applying it advances over the input. */
  lemma GoodOpAdvances(all: seq<Byte>, head: nat, cap: nat, st: LzState, op: Op)
    requires head <= |all| && 1 <= cap <= EOS_DIST && HashTables.GoodOp(all, head, cap, st.rep0, op)
    ensures ValidOp(st, all[..head], cap, op)
    ensures 1 <= OpLen(op) && head + OpLen(op) <= |all|
    ensures Apply(all[..head], op) == all[..head + OpLen(op)]
  {
    match op
    case Literal(b) => assert all[..head] + [b] == all[..head + 1];
    case Match(d, n) => RepetitionIsCopy(all, head, d, n);
  }

  /** Where the current stream started, and what it consists of so far. */
  datatype Log = Log(p: Probs, st: LzState, start: nat, ops: seq<Op>)

  /** The log accounts for the encoded input, the state, and every register of the range coder. */
  ghost predicate LogOk(log: Log, all: seq<Byte>, head: nat, cap: nat, st: LzState, props: Props, w: Writer)
  {
    && log.start <= head <= |all|
    && ProbsOk(log.p) && PropsOk(props)
    && var hist0 := all[..log.start];
       && ValidOps(log.st, hist0, cap, log.ops)
       && Expand(log.st, hist0, cap, log.ops) == all[..head]
       && FinalState(log.st, hist0, cap, log.ops) == st
       && RepsOk(st, all[..head], cap)
       && w == WriteAll(Start(log.p), OpsEvents(log.st, props, hist0, cap, log.ops, false))
  }

  lemma LogStarts(all: seq<Byte>, head: nat, cap: nat, st: LzState, props: Props, p: Probs)
    requires head <= |all| && ProbsOk(p) && PropsOk(props) && RepsOk(st, all[..head], cap)
    ensures LogOk(Log(p, st, head, []), all, head, cap, st, props, Writer(ENCODER_START, p))
  {
  }

  lemma LogEmpty(log: Log, all: seq<Byte>, head: nat, cap: nat, st: LzState, props: Props, w: Writer)
    requires LogOk(log, all, head, cap, st, props, w)
    ensures head == log.start ==> w.e == ENCODER_START
  {
    hide RepsOk;
    assert |Expand(log.st, all[..log.start], cap, log.ops)| >= log.start + |log.ops|;
  }

  lemma LogSize(log: Log, all: seq<Byte>, head: nat, cap: nat, st: LzState, props: Props, w: Writer)
    requires LogOk(log, all, head, cap, st, props, w) && cap <= 4096
    ensures Len(w.e) <= 1 + 11 * (head - log.start)
  {
    hide RepsOk, WriteAll, OpsEvents, Expand;
    LzmaSize.StreamSize(log.p, log.st, props, all[..log.start], cap, log.ops);
  }

  /** More input changes nothing that is logged. */
  lemma LogKeeps(log: Log, all: seq<Byte>, more: seq<Byte>, head: nat, cap: nat, st: LzState, props: Props, w: Writer)
    requires LogOk(log, all, head, cap, st, props, w)
    ensures LogOk(log, all + more, head, cap, st, props, w)
  {
    assert (all + more)[..log.start] == all[..log.start] && (all + more)[..head] == all[..head];
  }

  lemma LogGrows(log: Log, all: seq<Byte>, head: nat, cap: nat, st: LzState, props: Props, w: Writer, op: Op)
    requires LogOk(log, all, head, cap, st, props, w) && 1 <= cap <= EOS_DIST
    requires HashTables.GoodOp(all, head, cap, st.rep0, op)
    ensures ValidOp(st, all[..head], cap, op) && 1 <= OpLen(op) && head + OpLen(op) <= |all|
    ensures WriterOk(w) && RepsOk(st, all[..head], cap)
    ensures LogOk(log.(ops := log.ops + [op]), all, head + OpLen(op), cap, NextState(st, op), props,
                  WriteAll(w, OpEvents(st, props, ContextOf(st, all[..head], cap), op)))
  {
    hide OpEvents, ContextOf, WriteAll, ProbsOk, Normal;
    var hist0, hist := all[..log.start], all[..head];
    GoodOpAdvances(all, head, cap, st, op);
    ValidOpsSnoc(log.st, hist0, cap, log.ops, op);
    OpsEventsSnoc(log.st, props, hist0, cap, log.ops, op);
    NextRepsOk(st, hist, cap, op);
    WriteAllConcat(Start(log.p), OpsEvents(log.st, props, hist0, cap, log.ops, false), OpEvents(st, props, ContextOf(st, hist, cap), op));
  }

  /** The marker, if wanted, and the closing bytes complete the stream of the logged operations. */
  lemma LogCloses(log: Log, all: seq<Byte>, head: nat, cap: nat, st: LzState, props: Props, w: Writer, marker: bool)
    requires LogOk(log, all, head, cap, st, props, w) && 1 <= cap <= EOS_DIST
    ensures RepsOk(st, all[..head], cap)
    ensures WriterOk(w) && w.e.cacheLen >= 1
    ensures Writable(st, EOS_MATCH)
    ensures var hist0 := all[..log.start];
            var w' := if marker then WriteAll(w, OpEvents(st, props, ContextOf(st, all[..head], cap), EOS_MATCH)) else w;
            && ProbsOk(log.p) && PropsOk(props)
            && ValidOps(log.st, hist0, cap, log.ops)
            && StreamGoal(log.p, log.st, props, hist0, cap, log.ops, false) == Goal(all[..head], st, w.p)
            && w'.e.cacheLen >= 1
            && Close(w'.e) == EncodeStream(log.p, log.st, props, hist0, cap, log.ops, marker)
  {
    hide OpEvents, ContextOf, WriteAll, ProbsOk, Close;
    var hist0 := all[..log.start];
    MarkerSeen(st, all[..head], cap);
    OpsEventsMarker(log.st, props, hist0, cap, log.ops);
    WriteAllConcat(Start(log.p), OpsEvents(log.st, props, hist0, cap, log.ops, false), OpEvents(st, props, ContextOf(st, all[..head], cap), EOS_MATCH));
  }

  /** The largest number of bytes one operation may take. */
  const OP_LEN_MARGIN: int := 16

  class Encoder {
    const dict: EncoderDict
    const m: HashTables.HashTable
    var state: State
    var re: RangeEncoder
    var start: nat
    const marker: bool
    /** How many bytes the stream may have, when the writer below is limited. */
    var limit: Option<nat>
    ghost var log: Log

    ghost predicate Separate()
      reads this
    {
      && m.t != dict.buf.data as object
      && m.data != dict.buf.data as object
      && m.wr != m.hr
    }

    ghost predicate Valid()
      reads this, dict, dict.buf, dict.buf.data, m, m.t, m.data, m.wr, m.hr, state, re
    {
      && Separate()
      && dict.Valid() && m.Valid() && state.Valid()
      && m.input == dict.Hist()
      && dict.buf.Cap() >= dict.capacity + MAX_MATCH_LEN
      && start == log.start <= dict.head
      && LogOk(log, dict.all, dict.head, dict.capacity, state.St(), state.props, W(re, state))
    }

    constructor (dict_: EncoderDict, m_: HashTables.HashTable, state_: State, marker_: bool, limit_: Option<nat>)
      requires dict_.Valid() && m_.Valid() && state_.Valid() && m_.input == dict_.Hist()
      requires m_.t != dict_.buf.data as object && m_.data != dict_.buf.data as object && m_.wr != m_.hr
      requires dict_.buf.Cap() >= dict_.capacity + MAX_MATCH_LEN
      requires RepsOk(state_.St(), dict_.Hist(), dict_.capacity)
      ensures Valid() && dict == dict_ && m == m_ && state == state_ && marker == marker_ && limit == limit_ && fresh(re)
      ensures log == Log(state_.probs, state_.St(), dict_.head, [])
    {
      hide Normal, RangeSpec.Write, WriteAll, HashTables.HashTable.Valid, EncoderDict.Valid, HashTables.GoodOp, HashTables.Best, HashTables.HashTable.Probes, OpEvents, OpsEvents, ContextOf, RepsOk, ProbsOk, LogOk;
      dict_.Facts();
      LogStarts(dict_.all, dict_.head, dict_.capacity, state_.St(), state_.props, state_.probs);
      dict, m, state, marker, limit := dict_, m_, state_, marker_, limit_;
      re := new RangeEncoder();
      start := dict_.head;
      log := Log(state_.probs, state_.St(), dict_.head, []);
    }

    /** Starts a new range-coded stream behind the old one; state and dictionary go on. */
    method Reopen(limit_: Option<nat>)
      requires dict.Valid() && m.Valid() && state.Valid() && Separate() && m.input == dict.Hist()
      requires dict.buf.Cap() >= dict.capacity + MAX_MATCH_LEN && RepsOk(state.St(), dict.Hist(), dict.capacity)
      modifies this
      ensures Valid() && state == old(state) && limit == limit_ && fresh(re)
      ensures log == Log(state.probs, state.St(), dict.head, [])
    {
      hide Normal, RangeSpec.Write, WriteAll, HashTables.HashTable.Valid, EncoderDict.Valid, HashTables.GoodOp, HashTables.Best, HashTables.HashTable.Probes, OpEvents, OpsEvents, ContextOf, RepsOk, ProbsOk, LogOk;
      dict.Facts();
      LogStarts(dict.all, dict.head, dict.capacity, state.St(), state.props, state.probs);
      re := new RangeEncoder();
      start := dict.head;
      limit := limit_;
      log := Log(state.probs, state.St(), dict.head, []);
    }

    /** Whether the limit leaves no room for one more operation and the closing bytes. */
    function Exhausted(): bool
      reads this, re
    {
      limit.Some? && limit.value as int - |re.out| - (re.cacheLen + 4) < OP_LEN_MARGIN + (if marker then 5 else 0)
    }

    /** A stream without operations has room for one. */
    lemma FreshHasRoom()
      requires Valid()
      ensures dict.head == log.start && (limit.Some? ==> limit.value >= OP_LEN_MARGIN + 10) ==> !Exhausted()
    {
      hide LogOk, HashTables.HashTable.Valid, EncoderDict.Valid;
      LogEmpty(log, dict.all, dict.head, dict.capacity, state.St(), state.props, W(re, state));
    }

    /** Short input within a small dictionary does not come near a limit of 64 KiB. */
    lemma SmallHasRoom()
      requires Valid() && Small()
      ensures !Exhausted()
    {
      hide LogOk, HashTables.HashTable.Valid, EncoderDict.Valid;
      dict.Facts();
      LogSize(log, dict.all, dict.head, dict.capacity, state.St(), state.props, W(re, state));
    }

    /** The stream is for no more than 5900 bytes, in a dictionary of no more than 4096. */
    ghost predicate Small()
      reads this, dict
    {
      dict.capacity <= 4096 && |dict.all| - log.start <= 5900 && (limit.Some? ==> limit.value >= 0x1_0000)
    }

    method WriteLiteral(b: Byte)
      requires dict.Valid() && state.Valid() && WriterOk(W(re, state)) && RepsOk(state.St(), dict.Hist(), dict.capacity)
      modifies re, state
      ensures state.Valid() && state.props == old(state.props) && WriterOk(W(re, state))
      ensures state.St() == NextState(old(state.St()), Literal(b))
      ensures W(re, state) == WriteAll(old(W(re, state)), OpEvents(old(state.St()), state.props, ContextOf(old(state.St()), dict.Hist(), dict.capacity), Literal(b)))
    {
      hide Normal, RangeSpec.Write, WriteAll, CodecSpec.EncodeLiteral, LitState, Shr, EncoderDict.Valid, RepsOk, ProbsOk;
      dict.Facts();
      var posState := PosState(state.props, dict.head);
      PosStateSmall(state.props, dict.head);
      var prev := dict.ByteAt(1);
      RepInDict(state.St(), dict.Hist(), dict.capacity);
      var matchByte := dict.ByteAt(state.rep[0] + 1);
      ghost var ctx := ContextOf(state.St(), dict.Hist(), dict.capacity);
      assert ctx == Context(dict.head, prev, matchByte);
      var litState := LitState(state.props, Context(dict.head, prev, matchByte));
      LitStateSmall(state.props, ctx);
      var isMatch := IsMatch(State2(state.num, posState));
      WriteAllCons(W(re, state), Model(isMatch, 0), CodecSpec.EncodeLiteral(b, state.num, matchByte, litState));
      EncodeCell(re, state, isMatch, 0);
      LzmaCoder.EncodeLiteral(re, state, b, state.num, matchByte, litState);
      state.UpdateStateLiteral();
    }

    /** Writes a match; `distance` may be that of the end-of-stream marker. */
    method WriteMatch(distance: nat, n: nat, ghost ctx: Context)
      requires ctx.head == dict.head && state.Valid() && WriterOk(W(re, state)) && Writable(state.St(), Match(distance, n))
      modifies re, state
      ensures state.Valid() && state.props == old(state.props) && WriterOk(W(re, state))
      ensures state.St() == NextState(old(state.St()), Match(distance, n))
      ensures W(re, state) == WriteAll(old(W(re, state)), OpEvents(old(state.St()), state.props, ctx, Match(distance, n)))
    {
      hide Normal, RangeSpec.Write, WriteAll, RepEvents, CodecSpec.EncodeLen, CodecSpec.EncodeDist;
      var dist := distance - 1;
      var num, posState := state.num, PosState(state.props, dict.head);
      PosStateSmall(state.props, dict.head);
      var g := 0;
      while g < 4 && state.rep[g] != dist
        invariant g <= 4 && forall k :: 0 <= k < g ==> state.rep[k] != dist
      {
        g := g + 1;
      }
      assert g == RepIndex(state.St(), dist);
      ghost var tail := if g == 4 then CodecSpec.EncodeLen(false, n - 2, posState) + CodecSpec.EncodeDist(dist, n - 2)
                        else RepEvents(num, posState, g, n);
      ghost var second := Model(IsRep(num), if g == 4 then 0 else 1);
      WriteAllCons(W(re, state), Model(IsMatch(State2(num, posState)), 1), [second] + tail);
      EncodeCell(re, state, IsMatch(State2(num, posState)), 1);
      WriteAllCons(W(re, state), second, tail);
      EncodeCell(re, state, IsRep(num), if g < 4 then 1 else 0);
      if g == 4 {
        state.rep := [dist, state.rep[0], state.rep[1], state.rep[2]];
        state.UpdateStateMatch();
        WriteAllConcat(W(re, state), CodecSpec.EncodeLen(false, n - 2, posState), CodecSpec.EncodeDist(dist, n - 2));
        LzmaCoder.EncodeLen(re, state, false, n - 2, posState);
        LzmaCoder.EncodeDist(re, state, dist, n - 2);
        return;
      }
      WriteRep(g, n, posState);
    }

    /** The tail of a match whose distance is the remembered one number `g`. */
    method WriteRep(g: nat, n: nat, posState: nat)
      requires state.Valid() && WriterOk(W(re, state)) && g < 4 && posState < 16
      requires n == 1 ==> g == 0
      requires 1 <= n <= MAX_MATCH_LEN
      modifies re, state
      ensures state.Valid() && state.props == old(state.props) && WriterOk(W(re, state))
      ensures W(re, state) == WriteAll(old(W(re, state)), RepEvents(old(state.num), posState, g, n))
      ensures state.num == if g == 0 && n == 1 then AfterShortRep(old(state.num)) else AfterRep(old(state.num))
      ensures var r := old(state.rep);
              state.rep == match g case 0 => r case 1 => [r[1], r[0], r[2], r[3]] case 2 => [r[2], r[0], r[1], r[3]] case _ => [r[3], r[0], r[1], r[2]]
    {
      hide Normal, RangeSpec.Write, WriteAll, CodecSpec.EncodeLen;
      var num := state.num;
      ghost var len := if n == 1 then [] else CodecSpec.EncodeLen(true, n - 2, posState);
      if g == 0 {
        var b: Bit := if n != 1 then 1 else 0;
        ghost var long := Model(IsRepG0Long(State2(num, posState)), b);
        assert RepEvents(num, posState, g, n) == [Model(IsRepG0(num), 0)] + ([long] + len);
        WriteAllCons(W(re, state), Model(IsRepG0(num), 0), [long] + len);
        EncodeCell(re, state, IsRepG0(num), 0);
        WriteAllCons(W(re, state), long, len);
        EncodeCell(re, state, IsRepG0Long(State2(num, posState)), b);
        if b == 0 {
          WriteAllNone(W(re, state));
          state.UpdateStateShortRep();
          return;
        }
      } else {
        WriteFarRep(g, num, len);
      }
      state.UpdateStateRep();
      LzmaCoder.EncodeLen(re, state, true, n - 2, posState);
    }

    method WriteFarRep(g: nat, num: nat, ghost len: seq<Event>)
      requires state.Valid() && WriterOk(W(re, state)) && 1 <= g < 4 && num < 12
      modifies re, state`probs, state`rep
      ensures state.Valid() && WriterOk(W(re, state))
      ensures WriteAll(W(re, state), len) ==
              WriteAll(old(W(re, state)), [Model(IsRepG0(num), 1)] + if g == 1 then [Model(IsRepG1(num), 0)] + len
                                          else [Model(IsRepG1(num), 1)] + ([Model(IsRepG2(num), if g == 2 then 0 else 1)] + len))
      ensures var r := old(state.rep);
              state.rep == match g case 1 => [r[1], r[0], r[2], r[3]] case 2 => [r[2], r[0], r[1], r[3]] case _ => [r[3], r[0], r[1], r[2]]
    {
      hide Normal, RangeSpec.Write, WriteAll;
      var dist := state.rep[g];
      var b1: Bit, b2: Bit := if g != 1 then 1 else 0, if g != 2 then 1 else 0;
      ghost var e1, e2 := Model(IsRepG1(num), b1), Model(IsRepG2(num), b2);
      ghost var tail := if g == 1 then len else [e2] + len;
      WriteAllCons(W(re, state), Model(IsRepG0(num), 1), [e1] + tail);
      EncodeCell(re, state, IsRepG0(num), 1);
      WriteAllCons(W(re, state), e1, tail);
      EncodeCell(re, state, IsRepG1(num), b1);
      if b1 == 1 {
        WriteAllCons(W(re, state), e2, len);
        EncodeCell(re, state, IsRepG2(num), b2);
        if b2 == 1 {
          state.rep := state.rep[3 := state.rep[2]];
        }
        state.rep := state.rep[2 := state.rep[1]];
      }
      state.rep := state.rep[1 := state.rep[0]];
      state.rep := state.rep[0 := dist];
    }

    method WriteOp(op: Op)
      requires dict.Valid() && state.Valid() && WriterOk(W(re, state)) && RepsOk(state.St(), dict.Hist(), dict.capacity)
      requires Writable(state.St(), op)
      modifies re, state
      ensures state.Valid() && state.props == old(state.props) && WriterOk(W(re, state))
      ensures state.St() == NextState(old(state.St()), op)
      ensures W(re, state) == WriteAll(old(W(re, state)), OpEvents(old(state.St()), state.props, ContextOf(old(state.St()), dict.Hist(), dict.capacity), op))
    {
      match op
      case Literal(b) => WriteLiteral(b);
      case Match(distance, n) => WriteMatch(distance, n, ContextOf(state.St(), dict.Hist(), dict.capacity));
    }

    /** One round of compress: choose, write, move on; or report that the limit is reached. */
    method Step() returns (err: Option<Error>)
      requires Valid() && dict.buf.Buffered() >= 1
      modifies this`log, dict, dict.buf, m, m.t, m.data, m.wr, m.hr, re, state
      ensures Valid() && state.props == old(state.props)
      ensures dict.all == old(dict.all) && err == if old(Exhausted()) then Some(LimitReached) else None
      ensures if err == None then dict.head > old(dict.head) else dict.head == old(dict.head) && log == old(log) && Exhausted()
      ensures log.p == old(log.p) && log.st == old(log.st) && log.start == old(log.start)
    {
      hide Normal, RangeSpec.Write, WriteAll, HashTables.HashTable.Valid, EncoderDict.Valid, HashTables.GoodOp, HashTables.Best, HashTables.HashTable.Probes, OpEvents, OpsEvents, ContextOf, RepsOk, ProbsOk, LogOk;
      dict.Facts();
      var op := m.NextOp(dict, state.rep[0]);
      LogGrows(log, dict.all, dict.head, dict.capacity, state.St(), state.props, W(re, state), op);
      if Exhausted() {
        return Some(LimitReached);
      }
      WriteOp(op);
      var p := dict.Discard(OpLen(op));
      m.Write(p);
      log := log.(ops := log.ops + [op]);
      assert dict.Hist() == old(dict.Hist()) + p;
      return None;
    }

    /** Compresses lookahead; without `flush` the last 272 bytes wait for more input. */
    method Compress(flush: bool) returns (err: Option<Error>)
      requires Valid()
      modifies this`log, dict, dict.buf, m, m.t, m.data, m.wr, m.hr, re, state
      ensures Valid() && state.props == old(state.props)
      ensures dict.all == old(dict.all) && dict.head >= old(dict.head)
      ensures log.p == old(log.p) && log.st == old(log.st) && log.start == old(log.start)
      ensures err == None ==> if flush then dict.buf.Buffered() == 0 else dict.Available() > 0
      ensures err == None || (err == Some(LimitReached) && limit.Some? && dict.head < |dict.all| && !Small())
      ensures dict.head > old(dict.head) || old(Exhausted()) || (flush && old(dict.buf.Buffered()) == 0) || !flush
    {
      hide Normal, RangeSpec.Write, WriteAll, HashTables.HashTable.Valid, EncoderDict.Valid, HashTables.GoodOp, HashTables.Best, HashTables.HashTable.Probes, OpEvents, OpsEvents, ContextOf, RepsOk, ProbsOk, LogOk;
      dict.Facts();
      var n := if flush then 0 else MAX_MATCH_LEN - 1;
      while dict.buf.Buffered() > n
        invariant Valid() && dict.buf.Valid() && state.props == old(state.props)
        invariant dict.all == old(dict.all) && dict.head >= old(dict.head)
        invariant log.p == old(log.p) && log.st == old(log.st) && log.start == old(log.start)
        invariant dict.head > old(dict.head) || (Exhausted() == old(Exhausted()) && dict.buf.Buffered() == old(dict.buf.Buffered()))
        decreases |dict.all| - dict.head
      {
        dict.Facts();
        err := Step();
        dict.Facts();
        if err.Some? {
          if Small() { SmallHasRoom(); }
          return;
        }
      }
      return None;
    }

    /** Puts input into the dictionary, as much as fits. */
    method TakeIn(q: seq<Byte>) returns (k: nat, full: Option<Error>)
      requires Valid()
      modifies dict, dict.buf, dict.buf.data
      ensures Valid() && k <= |q| && dict.all == old(dict.all) + q[..k] && dict.head == old(dict.head)
      ensures k == if |q| > old(dict.Available()) then old(dict.Available()) else |q|
      ensures full == if k < |q| then Some(NoSpace) else None
    {
      hide Normal, RangeSpec.Write, WriteAll, HashTables.HashTable.Valid, EncoderDict.Valid, OpsEvents, RepsOk, ProbsOk, LogOk;
      dict.Facts();
      LogKeeps(log, dict.all, q[..if |q| > dict.Available() then dict.Available() else |q|], dict.head, dict.capacity, state.St(), state.props, W(re, state));
      ghost var before := dict.Hist();
      k, full := dict.Write(q);
      assert dict.Hist() == before;
    }

    /** Takes input, compressing whenever the dictionary is full, until the limit is reached. */
    method Write(p: seq<Byte>) returns (n: nat, err: Option<Error>)
      requires Valid()
      modifies this`log, dict, dict.buf, dict.buf.data, m, m.t, m.data, m.wr, m.hr, re, state
      ensures Valid() && state.props == old(state.props)
      ensures n <= |p| && dict.all == old(dict.all) + p[..n]
      ensures if err == None then n == |p| else err == Some(LimitReached) && limit.Some? && dict.head < |dict.all| && !Small()
      ensures log.p == old(log.p) && log.st == old(log.st) && log.start == old(log.start)
    {
      hide Small, Exhausted, Normal, RangeSpec.Write, WriteAll, HashTables.HashTable.Valid, EncoderDict.Valid, HashTables.GoodOp, HashTables.Best, HashTables.HashTable.Probes, OpEvents, OpsEvents, ContextOf, RepsOk, ProbsOk, LogOk;
      n := 0;
      while true
        invariant Valid() && state.props == old(state.props) && n <= |p|
        invariant dict.all == old(dict.all) + p[..n]
        invariant log.p == old(log.p) && log.st == old(log.st) && log.start == old(log.start)
        decreases |p| - n, if dict.Available() > 0 then 0 else 1
      {
        var k, full := TakeIn(p[n..]);
        assert p[..n] + p[n..][..k] == p[..n + k];
        n := n + k;
        if full != Some(NoSpace) {
          return n, None;
        }
        err := Compress(false);
        if err.Some? {
          return;
        }
      }
    }

    /** Ends the stream: the bytes are those of all logged operations, which expand to the input, up to the limit. */
    method Close()
      requires Valid()
      modifies this`log, dict, dict.buf, m, m.t, m.data, m.wr, m.hr, re, state
      ensures dict.Valid() && m.Valid() && m.input == dict.Hist() && dict.all == old(dict.all)
      ensures limit == None || old(Small()) ==> dict.head == |dict.all|
      ensures log.start < |dict.all| && (limit.Some? ==> limit.value >= OP_LEN_MARGIN + 10) ==> log.start < dict.head
      ensures log.p == old(log.p) && log.st == old(log.st) && log.start == old(log.start) <= dict.head
      ensures ProbsOk(log.p) && PropsOk(state.props) && state.props == old(state.props)
      ensures var hist0 := dict.all[..log.start];
              && ValidOps(log.st, hist0, dict.capacity, log.ops)
              && Expand(log.st, hist0, dict.capacity, log.ops) == dict.Hist()
              && (!marker ==> state.Valid() && StreamGoal(log.p, log.st, state.props, hist0, dict.capacity, log.ops, false) ==
                                               Goal(dict.Hist(), state.St(), state.probs) &&
                              RepsOk(state.St(), dict.Hist(), dict.capacity))
              && re.out == EncodeStream(log.p, log.st, state.props, hist0, dict.capacity, log.ops, marker)
    {
      hide Normal, RangeSpec.Write, WriteAll, HashTables.HashTable.Valid, EncoderDict.Valid, OpEvents, OpsEvents, ContextOf, RepsOk, ProbsOk, LogOk, EncodeStream, StreamGoal, Expand, ValidOps;
      CompressRest();
      if marker {
        WriteMatch(MAX_DISTANCE, MIN_MATCH_LEN, ContextOf(state.St(), dict.Hist(), dict.capacity));
      }
      re.Close();
    }

    /** Encodes what is buffered; what remains are the marker and the closing bytes. */
    method CompressRest()
      requires Valid()
      modifies this`log, dict, dict.buf, m, m.t, m.data, m.wr, m.hr, re, state
      ensures Valid() && dict.all == old(dict.all) && state.props == old(state.props)
      ensures limit == None || old(Small()) ==> dict.head == |dict.all|
      ensures log.start < |dict.all| && (limit.Some? ==> limit.value >= OP_LEN_MARGIN + 10) ==> log.start < dict.head
      ensures log.p == old(log.p) && log.st == old(log.st) && log.start == old(log.start) <= dict.head
      ensures ProbsOk(log.p) && PropsOk(state.props) && RepsOk(state.St(), dict.Hist(), dict.capacity)
      ensures Writable(state.St(), EOS_MATCH) && WriterOk(W(re, state)) && re.cacheLen >= 1
      ensures var hist0 := dict.all[..log.start];
              var st := state.St();
              var w := W(re, state);
              var w' := if marker then WriteAll(w, OpEvents(st, state.props, ContextOf(st, dict.Hist(), dict.capacity), EOS_MATCH)) else w;
              && ValidOps(log.st, hist0, dict.capacity, log.ops)
              && Expand(log.st, hist0, dict.capacity, log.ops) == dict.Hist()
              && StreamGoal(log.p, log.st, state.props, hist0, dict.capacity, log.ops, false) == Goal(dict.Hist(), st, state.probs)
              && w'.e.cacheLen >= 1
              && RangeSpec.Close(w'.e) == EncodeStream(log.p, log.st, state.props, hist0, dict.capacity, log.ops, marker)
    {
      hide Exhausted, Normal, RangeSpec.Write, WriteAll, HashTables.HashTable.Valid, EncoderDict.Valid, HashTables.GoodOp, HashTables.Best, HashTables.HashTable.Probes, OpEvents, OpsEvents, ContextOf, RepsOk, ProbsOk, LogOk;
      dict.Facts();
      FreshHasRoom();
      var err := Compress(true);
      dict.Facts();
      LogCloses(log, dict.all, dict.head, dict.capacity, state.St(), state.props, W(re, state), marker);
    }
  }

  lemma RepInDict(st: LzState, hist: seq<Byte>, cap: nat)
    requires RepsOk(st, hist, cap) && cap >= 1
    ensures st.rep0 + 1 <= DictLen(hist, cap) || st.rep0 + 1 > |hist|
    ensures 1 <= DictLen(hist, cap) || 1 > |hist|
  {
    assert st.rep0 in [st.rep0, st.rep1, st.rep2, st.rep3];
  }
}
