/** The LZMA state object and the codecs that drive a range coder with its probabilities. */
module LzmaCoder {
  import opened Bits
  import opened Results
  import opened Cells
  import opened RangeCoder
  import opened RangeSpec
  import opened CodecSpec
  import opened OpSpec

  /** Probabilities, state number and remembered distances of one side of the codec. */
  class State {
    var props: Props
    var num: nat
    var rep: seq<nat>
    var probs: Probs

    ghost predicate Valid()
      reads this
    {
      PropsOk(props) && num < 12 && |rep| == 4 && ProbsOk(probs)
    }

    ghost function St(): LzState
      requires |rep| == 4
      reads this
    {
      LzState(num, rep[0], rep[1], rep[2], rep[3])
    }

    constructor (p: Props)
      requires PropsOk(p)
      ensures Valid() && props == p && St() == INITIAL_STATE && probs == map[]
    {
      props, num, rep, probs := p, 0, [0, 0, 0, 0], map[];
    }

    /** Back to the initial values; the properties stay. */
    method Reset()
      requires PropsOk(props)
      modifies this
      ensures Valid() && props == old(props) && St() == INITIAL_STATE && probs == map[]
    {
      num, rep, probs := 0, [0, 0, 0, 0], map[];
    }

    method DeepCopy(src: State)
      requires src.Valid()
      modifies this
      ensures Valid() && props == old(src.props) && St() == old(src.St()) && probs == old(src.probs)
    {
      rep, num, probs, props := src.rep, src.num, src.probs, src.props;
    }

    method UpdateStateLiteral()
      requires num < 12
      modifies `num
      ensures num == AfterLiteral(old(num)) && num < 12
    {
      if num < 4 {
        num := 0;
      } else if num < 10 {
        num := num - 3;
      } else {
        num := num - 6;
      }
    }

    method UpdateStateMatch()
      modifies `num
      ensures num == AfterMatch(old(num)) && num < 12
    {
      num := if num < 7 then 7 else 10;
    }

    method UpdateStateRep()
      modifies `num
      ensures num == AfterRep(old(num)) && num < 12
    {
      num := if num < 7 then 8 else 11;
    }

    method UpdateStateShortRep()
      modifies `num
      ensures num == AfterShortRep(old(num)) && num < 12
    {
      num := if num < 7 then 9 else 11;
    }
  }

  /** A copy that shares nothing with its source. */
  method CloneState(src: State) returns (s: State)
    requires src.Valid()
    ensures fresh(s) && s.Valid() && s.props == src.props && s.St() == src.St() && s.probs == src.probs
  {
    s := new State(src.props);
    s.DeepCopy(src);
  }

  lemma PosStateSmall(props: Props, head: nat)
    requires PropsOk(props)
    ensures PosState(props, head) < 16
  {
    Pow2Mono(props.pb, 4);
    assert Pow2(4) == 16;
  }

  lemma LitStateSmall(props: Props, ctx: Context)
    requires PropsOk(props)
    ensures LitState(props, ctx) < Pow2(props.lc + props.lp)
  {
    Pow2Add(props.lc, props.lp);
    assert Pow2(8) == 256;
    ShrTop(ctx.prev, 8 - props.lc, props.lc);
    MixedRadix(ctx.head % Pow2(props.lp), Pow2(props.lp), Shr(ctx.prev, 8 - props.lc), Pow2(props.lc));
  }

  lemma MixedRadix(a: nat, p: nat, b: nat, q: nat)
    requires a < p && b < q
    ensures a * q + b < q * p
  {
    assert (a + 1) * q <= p * q;
  }

  lemma ShrTop(v: nat, a: nat, b: nat)
    requires v < Pow2(a + b)
    ensures Shr(v, a) < Pow2(b)
  {
    ShrLow(v, a);
    Pow2Add(a, b);
    QuotientBelow(Shr(v, a), Pow2(a), Pow2(b), v);
  }

  lemma QuotientBelow(s: nat, p: nat, q: nat, v: nat)
    requires p >= 1 && s * p <= v < p * q
    ensures s < q
  {
    assert s >= q ==> (s - q) * p >= 0;
  }

  // ----- one coded bit -----

  ghost function W(e: RangeEncoder, s: State): Writer
    reads e, s
  {
    Writer(e.Model(), s.probs)
  }

  ghost function R(d: RangeDecoder, s: State): Reader
    reads d, s
  {
    Reader(d.Model(), s.probs)
  }

  method EncodeCell(e: RangeEncoder, s: State, c: Cell, b: Bit)
    requires WriterOk(W(e, s)) && InArrays(c, s.props.lc + s.props.lp)
    modifies e, s`probs
    ensures WriterOk(W(e, s)) && W(e, s) == Write(old(W(e, s)), Model(c, b))
  {
    hide Narrow, Normal;
    EventSplits(W(e, s), Model(c, b));
    var q := e.EncodeBit(b, Get(s.probs, c));
    s.probs := s.probs[c := q];
  }

  method EncodeDirectBit(e: RangeEncoder, ghost s: State, b: Bit)
    requires WriterOk(W(e, s))
    modifies e
    ensures WriterOk(W(e, s)) && W(e, s) == Write(old(W(e, s)), Direct(b))
  {
    hide Narrow, Normal;
    e.DirectEncodeBit(b);
  }

  lemma WriteAllNone(w: Writer)
    requires WriterOk(w)
    ensures WriteAll(w, []) == w
  {
  }

  lemma WriteAllCons(w: Writer, ev: Event, rest: seq<Event>)
    requires WriterOk(w)
    ensures WriteAll(w, [ev] + rest) == WriteAll(Write(w, ev), rest)
  {
    assert ([ev] + rest)[0] == ev && ([ev] + rest)[1..] == rest;
  }

  method DecodeCell(d: RangeDecoder, s: State, c: Cell) returns (r: Result<Bit>)
    requires ProbsOk(s.probs) && InArrays(c, s.props.lc + s.props.lp)
    modifies d, s`probs
    ensures ProbsOk(s.probs)
    ensures match ReadModel(old(R(d, s)), c)
            case Ok((b, r')) => r == Ok(b) && R(d, s) == r'
            case Err(e) => r == Err(e)
  {
    hide NormalizeDecoder;
    var x :- d.DecodeBit(Get(s.probs, c));
    var (b, q) := x;
    AdaptOk(Get(s.probs, c), b);
    s.probs := s.probs[c := q];
    return Ok(b);
  }

  // ----- tree codecs -----

  method EncodeTree(e: RangeEncoder, s: State, t: Tree, v: nat)
    requires WriterOk(W(e, s)) && TreeOk(t)
    modifies e, s`probs
    ensures WriterOk(W(e, s)) && W(e, s) == WriteAll(old(W(e, s)), CodecSpec.EncodeTree(t, v))
  {
    hide Write, WriterOk, WriteAll, Pow2, InLevel, Shr;
    LevelTop(TreeBits(t));
    var m: nat := 1;
    var i: nat := TreeBits(t);
    while i > 0
      invariant 0 <= i <= TreeBits(t) && WriterOk(W(e, s)) && s.props == old(s.props)
      invariant InLevel(m, i, TreeBits(t))
      invariant WriteAll(W(e, s), TreeEvents(t, m, v, i)) == WriteAll(old(W(e, s)), TreeEvents(t, 1, v, TreeBits(t)))
    {
      i := i - 1;
      var b: Bit := Shr(v, i) % 2;
      LevelDown(m, b, i, TreeBits(t));
      WriteAllCons(W(e, s), Model(Node(t, m), b), TreeEvents(t, 2 * m + b, v, i));
      EncodeCell(e, s, Node(t, m), b);
      m := 2 * m + b;
    }
    WriteAllNone(W(e, s));
  }

  /** m is a node on the level with i bits still to come. */
  predicate InLevel(m: nat, i: nat, bits: nat) { i <= bits && Pow2(bits - i) <= m < 2 * Pow2(bits - i) }

  lemma LevelTop(bits: nat)
    ensures InLevel(1, bits, bits)
  {
  }

  lemma LevelBottom(m: nat, bits: nat)
    requires InLevel(m, 0, bits)
    ensures m >= Pow2(bits)
  {
  }

  lemma LevelDown(m: nat, b: Bit, i: nat, bits: nat)
    requires i < bits && InLevel(m, i + 1, bits)
    ensures InLevel(2 * m + b, i, bits) && m < Pow2(bits)
  {
    Pow2Mono(bits - i, bits);
  }

  method DecodeTree(d: RangeDecoder, s: State, t: Tree) returns (r: Result<nat>)
    requires ProbsOk(s.probs) && TreeOk(t)
    modifies d, s`probs
    ensures ProbsOk(s.probs)
    ensures match CodecSpec.DecodeTree(old(R(d, s)), t)
            case Ok((v, r')) => r == Ok(v) && R(d, s) == r'
            case Err(e) => r == Err(e)
  {
    hide ReadModel, Pow2;
    LevelTop(TreeBits(t));
    var m: nat := 1;
    var i: nat := TreeBits(t);
    while i > 0
      invariant 0 <= i <= TreeBits(t) && ProbsOk(s.probs) && s.props == old(s.props)
      invariant InLevel(m, i, TreeBits(t))
      invariant TreeWalk(R(d, s), t, m, i) == TreeWalk(old(R(d, s)), t, 1, TreeBits(t))
    {
      i := i - 1;
      LevelDown(m, 0, i, TreeBits(t));
      LevelDown(m, 1, i, TreeBits(t));
      var b :- DecodeCell(d, s, Node(t, m));
      m := 2 * m + b;
    }
    LevelBottom(m, TreeBits(t));
    var v: nat := m - Pow2(TreeBits(t));
    return Ok(v);
  }

  method EncodeReverse(e: RangeEncoder, s: State, t: Tree, v: nat)
    requires WriterOk(W(e, s)) && TreeOk(t)
    modifies e, s`probs
    ensures WriterOk(W(e, s)) && W(e, s) == WriteAll(old(W(e, s)), CodecSpec.EncodeReverse(t, v))
  {
    hide Write, WriterOk, Pow2;
    var m: nat := 1;
    LevelTop(TreeBits(t));
    var j := 0;
    var bits := TreeBits(t);
    while j < bits
      invariant 0 <= j <= bits && WriterOk(W(e, s)) && s.props == old(s.props)
      invariant InLevel(m, bits - j, bits)
      invariant WriteAll(W(e, s), ReverseEvents(t, m, v, j, bits)) == WriteAll(old(W(e, s)), ReverseEvents(t, 1, v, 0, bits))
    {
      var b: Bit := Shr(v, j) % 2;
      LevelDown(m, b, bits - j - 1, bits);
      WriteAllCons(W(e, s), Model(Node(t, m), b), ReverseEvents(t, 2 * m + b, v, j + 1, bits));
      EncodeCell(e, s, Node(t, m), b);
      m := 2 * m + b;
      j := j + 1;
    }
  }

  method DecodeReverse(d: RangeDecoder, s: State, t: Tree) returns (r: Result<nat>)
    requires ProbsOk(s.probs) && TreeOk(t)
    modifies d, s`probs
    ensures ProbsOk(s.probs)
    ensures match CodecSpec.DecodeReverse(old(R(d, s)), t)
            case Ok((v, r')) => r == Ok(v) && R(d, s) == r'
            case Err(e) => r == Err(e)
  {
    hide ReadModel, Pow2, ReverseWalk;
    LevelTop(TreeBits(t));
    var m: nat := 1;
    var v: nat := 0;
    var j := 0;
    var bits := TreeBits(t);
    while j < bits
      invariant 0 <= j <= bits && ProbsOk(s.probs) && s.props == old(s.props)
      invariant InLevel(m, bits - j, bits)
      invariant ReverseWalk(R(d, s), t, m, v, j, bits) == ReverseWalk(old(R(d, s)), t, 1, 0, 0, bits)
    {
      LevelDown(m, 0, bits - j - 1, bits);
      LevelDown(m, 1, bits - j - 1, bits);
      ghost var r0 := R(d, s);
      ReverseStep(r0, t, m, v, j, bits);
      var b :- DecodeCell(d, s, Node(t, m));
      m := 2 * m + b;
      v := v + b * Pow2(j);
      j := j + 1;
    }
    ReverseDone(R(d, s), t, m, v, bits);
    return Ok(v);
  }

  lemma ReverseStep(r: Reader, t: Tree, m: nat, v: nat, j: nat, bits: nat)
    requires j < bits
    ensures match ReadModel(r, Node(t, m))
            case Err(e) => ReverseWalk(r, t, m, v, j, bits) == Err(e)
            case Ok((b, r1)) => ReverseWalk(r, t, m, v, j, bits) == ReverseWalk(r1, t, 2 * m + b, v + b * Pow2(j), j + 1, bits)
  {
    hide ReadModel, Pow2;
  }

  lemma ReverseDone(r: Reader, t: Tree, m: nat, v: nat, bits: nat)
    ensures ReverseWalk(r, t, m, v, bits, bits) == Ok((v, r))
  {
  }

  // ----- direct bits -----

  method EncodeDirect(e: RangeEncoder, ghost s: State, v: nat, bits: nat)
    requires WriterOk(W(e, s))
    modifies e
    ensures WriterOk(W(e, s)) && W(e, s) == WriteAll(old(W(e, s)), CodecSpec.EncodeDirect(v, bits))
  {
    hide Write, WriterOk;
    var i: nat := bits;
    while i > 0
      invariant 0 <= i <= bits && WriterOk(W(e, s))
      invariant WriteAll(W(e, s), CodecSpec.EncodeDirect(v, i)) == WriteAll(old(W(e, s)), CodecSpec.EncodeDirect(v, bits))
    {
      i := i - 1;
      WriteAllCons(W(e, s), Direct(Shr(v, i) % 2), CodecSpec.EncodeDirect(v, i));
      EncodeDirectBit(e, s, Shr(v, i) % 2);
    }
  }

  method DecodeDirect(d: RangeDecoder, ghost s: State, bits: nat) returns (r: Result<nat>)
    modifies d
    ensures match CodecSpec.DecodeDirect(old(R(d, s)), 0, bits)
            case Ok((v, r')) => r == Ok(v) && R(d, s) == r'
            case Err(e) => r == Err(e)
  {
    hide DecodeDirectBit;
    var v: nat := 0;
    var i: nat := bits;
    while i > 0
      invariant 0 <= i <= bits
      invariant CodecSpec.DecodeDirect(R(d, s), v, i) == CodecSpec.DecodeDirect(old(R(d, s)), 0, bits)
    {
      i := i - 1;
      var b :- d.DirectDecodeBit();
      v := 2 * v + b;
    }
    return Ok(v);
  }

  // ----- lengths -----

  method EncodeLen(e: RangeEncoder, s: State, rep: bool, l: nat, posState: nat)
    requires WriterOk(W(e, s)) && posState < 16
    modifies e, s`probs
    ensures WriterOk(W(e, s)) && W(e, s) == WriteAll(old(W(e, s)), CodecSpec.EncodeLen(rep, l, posState))
  {
    hide Write, WriterOk, CodecSpec.EncodeTree, WriteAll;
    var c0, c1 := Choice(rep, 0), Choice(rep, 1);
    if l < 8 {
      WriteAllCons(W(e, s), Model(c0, 0), CodecSpec.EncodeTree(LenLow(rep, posState), l));
      EncodeCell(e, s, c0, 0);
      EncodeTree(e, s, LenLow(rep, posState), l);
      return;
    }
    ghost var b1: Bit := if l < 16 then 0 else 1;
    ghost var tail := if l < 16 then CodecSpec.EncodeTree(LenMid(rep, posState), l - 8) else CodecSpec.EncodeTree(LenHigh(rep), l - 16);
    WriteAllCons(W(e, s), Model(c0, 1), [Model(c1, b1)] + tail);
    EncodeCell(e, s, c0, 1);
    WriteAllCons(W(e, s), Model(c1, b1), tail);
    if l < 16 {
      EncodeCell(e, s, c1, 0);
      EncodeTree(e, s, LenMid(rep, posState), l - 8);
      return;
    }
    EncodeCell(e, s, c1, 1);
    EncodeTree(e, s, LenHigh(rep), l - 16);
  }

  method DecodeLen(d: RangeDecoder, s: State, rep: bool, posState: nat) returns (r: Result<nat>)
    requires ProbsOk(s.probs) && posState < 16
    modifies d, s`probs
    ensures ProbsOk(s.probs)
    ensures match CodecSpec.DecodeLen(old(R(d, s)), rep, posState)
            case Ok((v, r')) => r == Ok(v) && R(d, s) == r'
            case Err(e) => r == Err(e)
  {
    hide ReadModel, CodecSpec.DecodeTree;
    var b :- DecodeCell(d, s, Choice(rep, 0));
    if b == 0 {
      r := DecodeTree(d, s, LenLow(rep, posState));
      return;
    }
    b :- DecodeCell(d, s, Choice(rep, 1));
    var l;
    if b == 0 {
      l :- DecodeTree(d, s, LenMid(rep, posState));
      return Ok(l + 8);
    }
    l :- DecodeTree(d, s, LenHigh(rep));
    return Ok(l + 16);
  }

  // ----- distances -----

  method EncodeDist(e: RangeEncoder, s: State, dist: nat, l: nat)
    requires WriterOk(W(e, s)) && dist < TWO32
    modifies e, s`probs
    ensures WriterOk(W(e, s)) && W(e, s) == WriteAll(old(W(e, s)), CodecSpec.EncodeDist(dist, l))
  {
    hide Write, WriterOk, CodecSpec.EncodeTree, CodecSpec.EncodeReverse, CodecSpec.EncodeDirect, WriteAll, SlotOf, DistBits;
    var slot := SlotOf(dist);
    SlotRange(dist);
    ghost var slotEvents, tail := CodecSpec.EncodeTree(PosSlot(LenState(l)), slot), DistTail(dist, slot);
    WriteAllConcat(W(e, s), slotEvents, tail);
    EncodeTree(e, s, PosSlot(LenState(l)), slot);
    WriteAllNone(W(e, s));
    if slot < 4 {
      return;
    }
    if slot < 14 {
      EncodeReverse(e, s, PosModel(slot - 4), dist);
      return;
    }
    var bits := slot / 2 - 1;
    WriteAllConcat(W(e, s), CodecSpec.EncodeDirect(Shr(dist, 4), bits - 4), CodecSpec.EncodeReverse(Align, dist));
    EncodeDirect(e, s, Shr(dist, 4), bits - 4);
    EncodeReverse(e, s, Align, dist);
  }

  lemma SlotRange(dist: nat)
    requires dist < TWO32
    ensures SlotOf(dist) < 64
  {
    if dist >= 4 { SlotOk(dist); }
  }

  method DecodeDist(d: RangeDecoder, s: State, l: nat) returns (r: Result<nat>)
    requires ProbsOk(s.probs)
    modifies d, s`probs
    ensures ProbsOk(s.probs)
    ensures match CodecSpec.DecodeDist(old(R(d, s)), l)
            case Ok((v, r')) => r == Ok(v) && R(d, s) == r'
            case Err(e) => r == Err(e)
  {
    hide ReadModel, CodecSpec.DecodeTree, CodecSpec.DecodeReverse, CodecSpec.DecodeDirect, Shl;
    var slot :- DecodeTree(d, s, PosSlot(LenState(l)));
    if slot < 4 {
      return Ok(slot);
    }
    var bits := slot / 2 - 1;
    var dist := Shl(2 + slot % 2, bits);
    var u;
    if slot < 14 {
      u :- DecodeReverse(d, s, PosModel(slot - 4));
      return Ok(dist + u);
    }
    u :- DecodeDirect(d, s, bits - 4);
    var a :- DecodeReverse(d, s, Align);
    return Ok(dist + (16 * u + a));
  }

  // ----- literals -----

  method EncodeLiteral(e: RangeEncoder, s: State, b: Byte, state: nat, matchByte: Byte, k: nat)
    requires WriterOk(W(e, s)) && k < Pow2(s.props.lc + s.props.lp)
    modifies e, s`probs
    ensures WriterOk(W(e, s)) && W(e, s) == WriteAll(old(W(e, s)), CodecSpec.EncodeLiteral(b, state, matchByte, k))
  {
    hide Write, WriterOk, WriteAll, MatchedLiteral, PlainLiteral;
    var symbol: nat, r: nat := 1, b;
    if state >= 7 {
      symbol, r := EncodeMatched(e, s, b, matchByte, k);
    }
    EncodePlain(e, s, k, symbol, r);
  }

  lemma MatchedStep(w: Writer, k: nat, symbol: nat, r: nat, m: nat)
    requires WriterOk(w) && 1 <= symbol < 0x100
    ensures var matchBit := m / 128 % 2;
            var bit: Bit := r / 128 % 2;
            WriteAll(w, MatchedLiteral(k, symbol, r, m)) ==
            WriteAll(Write(w, Model(Lit(k, (1 + matchBit) * 0x100 + symbol), bit)),
                     if matchBit != bit then PlainLiteral(k, 2 * symbol + bit, 2 * r) else MatchedLiteral(k, 2 * symbol + bit, 2 * r, 2 * m))
  {
    hide Write, WriterOk;
    var matchBit := m / 128 % 2;
    var bit: Bit := r / 128 % 2;
    WriteAllCons(w, Model(Lit(k, (1 + matchBit) * 0x100 + symbol), bit),
                 if matchBit != bit then PlainLiteral(k, 2 * symbol + bit, 2 * r) else MatchedLiteral(k, 2 * symbol + bit, 2 * r, 2 * m));
  }

  /** Bits coded next to the match byte, until the first that differs from it; the rest is left to the caller. */
  method EncodeMatched(e: RangeEncoder, s: State, b: Byte, matchByte: Byte, k: nat) returns (symbol: nat, r: nat)
    requires WriterOk(W(e, s)) && k < Pow2(s.props.lc + s.props.lp)
    modifies e, s`probs
    ensures WriterOk(W(e, s)) && symbol >= 1
    ensures WriteAll(W(e, s), PlainLiteral(k, symbol, r)) == WriteAll(old(W(e, s)), MatchedLiteral(k, 1, b, matchByte))
  {
    hide Write, WriterOk, WriteAll, MatchedLiteral, PlainLiteral;
    symbol, r := 1, b;
    ghost var target := WriteAll(W(e, s), MatchedLiteral(k, 1, b, matchByte));
    var m: nat := matchByte;
    while symbol < 0x100
      invariant 1 <= symbol && WriterOk(W(e, s)) && s.props == old(s.props)
      invariant WriteAll(W(e, s), MatchedLiteral(k, symbol, r, m)) == target
      decreases 0x100 - symbol
    {
      var matchBit := m / 128 % 2;
      m := m * 2;
      var bit: Bit := r / 128 % 2;
      r := r * 2;
      var i := (1 + matchBit) * 0x100 + symbol;
      MatchedStep(W(e, s), k, symbol, r / 2, m / 2);
      EncodeCell(e, s, Lit(k, i), bit);
      symbol := 2 * symbol + bit;
      if matchBit != bit {
        return;
      }
    }
    LiteralEnds(k, symbol, r, m);
  }

  lemma LiteralEnds(k: nat, symbol: nat, r: nat, m: nat)
    requires symbol >= 0x100
    ensures MatchedLiteral(k, symbol, r, m) == PlainLiteral(k, symbol, r) == []
  {
  }

  method EncodePlain(e: RangeEncoder, s: State, k: nat, start: nat, byte: nat)
    requires WriterOk(W(e, s)) && k < Pow2(s.props.lc + s.props.lp) && start >= 1
    modifies e, s`probs
    ensures WriterOk(W(e, s)) && W(e, s) == WriteAll(old(W(e, s)), PlainLiteral(k, start, byte))
  {
    hide Write, WriterOk;
    var symbol, r := start, byte;
    while symbol < 0x100
      invariant 1 <= symbol && WriterOk(W(e, s)) && s.props == old(s.props)
      invariant WriteAll(W(e, s), PlainLiteral(k, symbol, r)) == WriteAll(old(W(e, s)), PlainLiteral(k, start, byte))
      decreases 0x100 - symbol
    {
      var bit: Bit := r / 128 % 2;
      r := r * 2;
      WriteAllCons(W(e, s), Model(Lit(k, symbol), bit), PlainLiteral(k, 2 * symbol + bit, r));
      EncodeCell(e, s, Lit(k, symbol), bit);
      symbol := 2 * symbol + bit;
    }
  }

  method DecodeLiteral(d: RangeDecoder, s: State, state: nat, matchByte: Byte, k: nat) returns (r: Result<Byte>)
    requires ProbsOk(s.probs) && k < Pow2(s.props.lc + s.props.lp)
    modifies d, s`probs
    ensures ProbsOk(s.probs)
    ensures match CodecSpec.DecodeLiteral(old(R(d, s)), state, matchByte, k)
            case Ok((b, r')) => r == Ok(b) && R(d, s) == r'
            case Err(e) => r == Err(e)
  {
    hide ReadModel;
    var symbol: nat := 1;
    ghost var target := if state >= 7 then MatchedWalk(R(d, s), k, 1, matchByte) else PlainWalk(R(d, s), k, 1);
    if state >= 7 {
      var m: nat := matchByte;
      var same := true;
      while same && symbol < 0x100
        invariant 1 <= symbol && ProbsOk(s.probs) && s.props == old(s.props)
        invariant same ==> MatchedWalk(R(d, s), k, symbol, m) == target
        invariant !same ==> PlainWalk(R(d, s), k, symbol) == target
        decreases 0x100 - symbol
      {
        var matchBit := m / 128 % 2;
        m := m * 2;
        var bit :- DecodeCell(d, s, Lit(k, (1 + matchBit) * 0x100 + symbol));
        symbol := 2 * symbol + bit;
        same := matchBit == bit;
      }
      assert PlainWalk(R(d, s), k, symbol) == target;
    }
    while symbol < 0x100
      invariant 1 <= symbol && ProbsOk(s.probs) && s.props == old(s.props)
      invariant PlainWalk(R(d, s), k, symbol) == target
      decreases 0x100 - symbol
    {
      var bit :- DecodeCell(d, s, Lit(k, symbol));
      symbol := 2 * symbol + bit;
    }
    return Ok(symbol % 256);
  }
}
