/**
 The LZMA operation layer as functions: literals and matches, the 12-state machine,
 the four remembered distances, and the history both sides copy from.
 */
module OpSpec {
  import opened Bits
  import opened Cells
  import opened Results
  import opened RangeSpec
  import opened CodecSpec

  datatype Props = Props(lc: nat, lp: nat, pb: nat)

  predicate PropsOk(p: Props) { p.lc <= 8 && p.lp <= 4 && p.pb <= 4 }

  // ----- the state machine -----

  datatype LzState = LzState(num: nat, rep0: nat, rep1: nat, rep2: nat, rep3: nat)

  const INITIAL_STATE: LzState := LzState(0, 0, 0, 0, 0)

  function AfterLiteral(num: nat): nat { if num < 4 then 0 else if num < 10 then num - 3 else num - 6 }

  function AfterMatch(num: nat): nat { if num < 7 then 7 else 10 }

  function AfterRep(num: nat): nat { if num < 7 then 8 else 11 }

  function AfterShortRep(num: nat): nat { if num < 7 then 9 else 11 }

  // ----- the history -----

  /** The byte `d` positions back, or 0 outside a dictionary of `cap` bytes. */
  function ByteAt(hist: seq<Byte>, cap: nat, d: nat): Byte
  {
    if 0 < d <= DictLen(hist, cap) then hist[|hist| - d] else 0
  }

  function DictLen(hist: seq<Byte>, cap: nat): nat { if |hist| >= cap then cap else |hist| }

  /** The LZ77 copy, one byte at a time. */
  function CopyBack(hist: seq<Byte>, dist: nat, n: nat): (h: seq<Byte>)
    requires 1 <= dist <= |hist|
    ensures |h| == |hist| + n && hist <= h
    decreases n
  {
    if n == 0 then hist else CopyBack(hist + [hist[|hist| - dist]], dist, n - 1)
  }

  // ----- operations -----

  datatype Op = Literal(b: Byte) | Match(distance: nat, n: nat)

  function OpLen(op: Op): nat { if op.Literal? then 1 else op.n }

  /** What the decoder knows before it reads an operation, apart from probabilities and reps. */
  datatype Context = Context(head: nat, prev: Byte, matchByte: Byte)

  function ContextOf(st: LzState, hist: seq<Byte>, cap: nat): (c: Context)
    ensures c.head == |hist|
  {
    Context(|hist|, ByteAt(hist, cap, 1), ByteAt(hist, cap, st.rep0 + 1))
  }

  function PosState(props: Props, head: nat): nat { head % Pow2(props.pb) }

  function State2(num: nat, posState: nat): nat { num * 16 + posState }

  function LitState(props: Props, ctx: Context): nat
    requires PropsOk(props)
  {
    (ctx.head % Pow2(props.lp)) * Pow2(props.lc) + Shr(ctx.prev, 8 - props.lc)
  }

  /** The first remembered distance equal to dist, or 4. */
  function RepIndex(st: LzState, dist: nat): nat
  {
    if st.rep0 == dist then 0
    else if st.rep1 == dist then 1
    else if st.rep2 == dist then 2
    else if st.rep3 == dist then 3
    else 4
  }

  /** What writeMatch accepts without a panic. */
  predicate Writable(st: LzState, op: Op)
  {
    op.Literal? ||
    (1 <= op.distance <= MAX_DISTANCE &&
     (MIN_MATCH_LEN <= op.n <= MAX_MATCH_LEN || (op.n == 1 && op.distance - 1 == st.rep0)))
  }

  function RepEvents(num: nat, posState: nat, g: nat, n: nat): seq<Event>
    requires g < 4 && n >= 1 && (n == 1 ==> g == 0)
  {
    if g == 0 then
      [Model(IsRepG0(num), 0)] +
      if n == 1 then [Model(IsRepG0Long(State2(num, posState)), 0)]
      else [Model(IsRepG0Long(State2(num, posState)), 1)] + EncodeLen(true, n - 2, posState)
    else
      [Model(IsRepG0(num), 1)] +
      if g == 1 then [Model(IsRepG1(num), 0)] + EncodeLen(true, n - 2, posState)
      else
        [Model(IsRepG1(num), 1)] +
        ([Model(IsRepG2(num), if g == 2 then 0 else 1)] + EncodeLen(true, n - 2, posState))
  }

  function OpEvents(st: LzState, props: Props, ctx: Context, op: Op): seq<Event>
    requires PropsOk(props) && Writable(st, op)
  {
    var posState := PosState(props, ctx.head);
    var isMatch := IsMatch(State2(st.num, posState));
    match op
    case Literal(b) =>
      [Model(isMatch, 0)] + EncodeLiteral(b, st.num, ctx.matchByte, LitState(props, ctx))
    case Match(distance, n) =>
      var g := RepIndex(st, distance - 1);
      [Model(isMatch, 1)] +
      if g == 4 then
        [Model(IsRep(st.num), 0)] + (EncodeLen(false, n - 2, posState) + EncodeDist(distance - 1, n - 2))
      else
        [Model(IsRep(st.num), 1)] + RepEvents(st.num, posState, g, n)
  }

  /** The state after writing `op`. */
  function NextState(st: LzState, op: Op): LzState
    requires Writable(st, op)
  {
    match op
    case Literal(_) => st.(num := AfterLiteral(st.num))
    case Match(distance, n) =>
      var dist := distance - 1;
      match RepIndex(st, dist)
      case 0 => st.(num := if n == 1 then AfterShortRep(st.num) else AfterRep(st.num))
      case 1 => LzState(AfterRep(st.num), dist, st.rep0, st.rep2, st.rep3)
      case 2 => LzState(AfterRep(st.num), dist, st.rep0, st.rep1, st.rep3)
      case 3 => LzState(AfterRep(st.num), dist, st.rep0, st.rep1, st.rep2)
      case _ => LzState(AfterMatch(st.num), dist, st.rep0, st.rep1, st.rep2)
  }

  // ----- reading an operation -----

  /** The next operation, or None for the end-of-stream marker. */
  function ReadOp(r: Reader, st: LzState, props: Props, ctx: Context): Result<(Option<Op>, LzState, Reader)>
    requires PropsOk(props)
  {
    var posState := PosState(props, ctx.head);
    var (b0, r0) :- ReadModel(r, IsMatch(State2(st.num, posState)));
    if b0 == 0 then
      var (b, r1) :- DecodeLiteral(r0, st.num, ctx.matchByte, LitState(props, ctx));
      Ok((Some(Literal(b)), st.(num := AfterLiteral(st.num)), r1))
    else
      var (b1, r1) :- ReadModel(r0, IsRep(st.num));
      if b1 == 0 then ReadSimpleMatch(r1, st, posState) else ReadRep(r1, st, posState)
  }

  function ReadSimpleMatch(r: Reader, st: LzState, posState: nat): Result<(Option<Op>, LzState, Reader)>
  {
    var (n, r1) :- DecodeLen(r, false, posState);
    var (dist, r2) :- DecodeDist(r1, n);
    var st' := LzState(AfterMatch(st.num), dist, st.rep0, st.rep1, st.rep2);
    if dist == EOS_DIST then Ok((None, st', r2))
    else Ok((Some(Match(dist + 1, n + MIN_MATCH_LEN)), st', r2))
  }

  function ReadRep(r: Reader, st: LzState, posState: nat): Result<(Option<Op>, LzState, Reader)>
  {
    var (b0, r0) :- ReadModel(r, IsRepG0(st.num));
    if b0 == 0 then
      var (b1, r1) :- ReadModel(r0, IsRepG0Long(State2(st.num, posState)));
      if b1 == 0 then Ok((Some(Match(st.rep0 + 1, 1)), st.(num := AfterShortRep(st.num)), r1))
      else ReadRepLen(r1, st, posState)
    else
      var (st', r1) :- FarRep(r0, st);
      ReadRepLen(r1, st', posState)
  }

  /** One of the three older distances moves to the front. */
  function FarRep(r: Reader, st: LzState): Result<(LzState, Reader)>
  {
    var (b1, r1) :- ReadModel(r, IsRepG1(st.num));
    if b1 == 0 then Ok((LzState(st.num, st.rep1, st.rep0, st.rep2, st.rep3), r1))
    else
      var (b2, r2) :- ReadModel(r1, IsRepG2(st.num));
      Ok((if b2 == 0 then LzState(st.num, st.rep2, st.rep0, st.rep1, st.rep3) else LzState(st.num, st.rep3, st.rep0, st.rep1, st.rep2), r2))
  }

  function ReadRepLen(r: Reader, st: LzState, posState: nat): Result<(Option<Op>, LzState, Reader)>
  {
    var (n, r1) :- DecodeLen(r, true, posState);
    Ok((Some(Match(st.rep0 + 1, n + MIN_MATCH_LEN)), st.(num := AfterRep(st.num)), r1))
  }

  /** The end-of-stream marker is the match at the largest distance, when no remembered distance hides it. */
  predicate IsMarker(st: LzState, op: Op)
  {
    op.Match? && op.distance == MAX_DISTANCE && RepIndex(st, op.distance - 1) == 4
  }

  lemma OpRoundTrip(r: Reader, st: LzState, props: Props, ctx: Context, op: Op)
    requires PropsOk(props) && Writable(st, op) && Follows(r, OpEvents(st, props, ctx, op))
    ensures ReadOp(r, st, props, ctx) ==
            Ok((if IsMarker(st, op) then None else Some(op), NextState(st, op), After(r, OpEvents(st, props, ctx, op))))
  {
    hide ReadModel, Follows, After, DecodeLiteral, EncodeLiteral, ReadSimpleMatch, ReadRep, RepEvents, EncodeLen, EncodeDist, PosState, State2, LitState, NextState;
    var posState := PosState(props, ctx.head);
    var first := Model(IsMatch(State2(st.num, posState)), if op.Literal? then 0 else 1);
    match op
    case Literal(b) =>
      var tail := EncodeLiteral(b, st.num, ctx.matchByte, LitState(props, ctx));
      FollowsCons(r, first, tail);
      NextAfterLiteral(st, b);
      LiteralRoundTrip(Read(r, first).value.1, b, st.num, ctx.matchByte, LitState(props, ctx));
    case Match(distance, n) =>
      var g := RepIndex(st, distance - 1);
      var second := Model(IsRep(st.num), if g == 4 then 0 else 1);
      var tail := if g == 4 then EncodeLen(false, n - 2, posState) + EncodeDist(distance - 1, n - 2)
                  else RepEvents(st.num, posState, g, n);
      assert OpEvents(st, props, ctx, op) == [first] + ([second] + tail);
      FollowsCons(r, first, [second] + tail);
      var r0 := Read(r, first).value.1;
      FollowsCons(r0, second, tail);
      var r1 := Read(r0, second).value.1;
      if g == 4 { SimpleMatchRoundTrip(r1, st, posState, op); } else { RepRoundTrip(r1, st, posState, op); }
  }

  lemma NextAfterLiteral(st: LzState, b: Byte)
    ensures NextState(st, Literal(b)) == st.(num := AfterLiteral(st.num))
  {
  }

  lemma SimpleMatchRoundTrip(r: Reader, st: LzState, posState: nat, op: Op)
    requires op.Match? && Writable(st, op) && RepIndex(st, op.distance - 1) == 4
    requires Follows(r, EncodeLen(false, op.n - 2, posState) + EncodeDist(op.distance - 1, op.n - 2))
    ensures ReadSimpleMatch(r, st, posState) ==
            Ok((if IsMarker(st, op) then None else Some(op), NextState(st, op),
                After(r, EncodeLen(false, op.n - 2, posState) + EncodeDist(op.distance - 1, op.n - 2))))
  {
    hide ReadModel, Follows, After, DecodeLen, EncodeLen, DecodeDist, EncodeDist;
    var l, d := EncodeLen(false, op.n - 2, posState), EncodeDist(op.distance - 1, op.n - 2);
    FollowsConcat(r, l, d);
    LenRoundTrip(r, false, op.n - 2, posState);
    DistRoundTrip(After(r, l), op.distance - 1, op.n - 2);
  }

  lemma RepRoundTrip(r: Reader, st: LzState, posState: nat, op: Op)
    requires op.Match? && Writable(st, op) && RepIndex(st, op.distance - 1) < 4
    requires Follows(r, RepEvents(st.num, posState, RepIndex(st, op.distance - 1), op.n))
    ensures ReadRep(r, st, posState) ==
            Ok((Some(op), NextState(st, op), After(r, RepEvents(st.num, posState, RepIndex(st, op.distance - 1), op.n))))
  {
    hide ReadModel, Follows, After, EncodeLen, State2, ReadRepLen;
    var g := RepIndex(st, op.distance - 1);
    if g == 0 {
      var e := Model(IsRepG0Long(State2(st.num, posState)), if op.n == 1 then 0 else 1);
      var len := if op.n == 1 then [] else EncodeLen(true, op.n - 2, posState);
      assert RepEvents(st.num, posState, g, op.n) == [Model(IsRepG0(st.num), 0)] + ([e] + len);
      FollowsCons(r, Model(IsRepG0(st.num), 0), [e] + len);
      var r0 := Read(r, Model(IsRepG0(st.num), 0)).value.1;
      FollowsCons(r0, e, len);
      var r1 := Read(r0, e).value.1;
      AfterNone(r1);
      if op.n != 1 { RepLenRoundTrip(r1, st, posState, op.n - 2); }
    } else {
      FarRepRoundTrip(r, st, posState, op, g);
    }
  }

  lemma RepLenRoundTrip(r: Reader, st: LzState, posState: nat, l: nat)
    requires l <= MAX_MATCH_LEN - MIN_MATCH_LEN && Follows(r, EncodeLen(true, l, posState))
    ensures ReadRepLen(r, st, posState) ==
            Ok((Some(Match(st.rep0 + 1, l + 2)), st.(num := AfterRep(st.num)), After(r, EncodeLen(true, l, posState))))
  {
    hide ReadModel, Follows, After, EncodeLen, DecodeLen;
    LenRoundTrip(r, true, l, posState);
  }

  lemma FarRepRoundTrip(r: Reader, st: LzState, posState: nat, op: Op, g: nat)
    requires op.Match? && Writable(st, op) && RepIndex(st, op.distance - 1) == g && 1 <= g < 4
    requires Follows(r, RepEvents(st.num, posState, g, op.n))
    ensures ReadRep(r, st, posState) == Ok((Some(op), NextState(st, op), After(r, RepEvents(st.num, posState, g, op.n))))
  {
    hide ReadModel, Follows, After, EncodeLen, RepEvents, State2, ReadRepLen;
    var len := EncodeLen(true, op.n - 2, posState);
    var e0 := Model(IsRepG0(st.num), 1);
    var e1 := Model(IsRepG1(st.num), if g == 1 then 0 else 1);
    var e2 := Model(IsRepG2(st.num), if g == 2 then 0 else 1);
    var tail := if g == 1 then len else [e2] + len;
    FarRepEvents(st.num, posState, g, op.n);
    var swapped := FarSwap(st, op.distance - 1, g);
    FollowsCons(r, e0, [e1] + tail);
    var r0 := Read(r, e0).value.1;
    FollowsCons(r0, e1, tail);
    var r1 := Read(r0, e1).value.1;
    if g == 1 {
      RepLenRoundTrip(r1, swapped, posState, op.n - 2);
    } else {
      FollowsCons(r1, e2, len);
      RepLenRoundTrip(Read(r1, e2).value.1, swapped, posState, op.n - 2);
    }
  }

  lemma FarRepEvents(num: nat, posState: nat, g: nat, n: nat)
    requires 1 <= g < 4 && n >= 2
    ensures var len := EncodeLen(true, n - 2, posState);
            RepEvents(num, posState, g, n) ==
            [Model(IsRepG0(num), 1)] + ([Model(IsRepG1(num), if g == 1 then 0 else 1)] +
              if g == 1 then len else [Model(IsRepG2(num), if g == 2 then 0 else 1)] + len)
  {
  }

  /** Moving the g-th remembered distance to the front is what the next state does, before its number changes. */
  lemma FarSwap(st: LzState, dist: nat, g: nat) returns (swapped: LzState)
    requires 1 <= g < 4 && RepIndex(st, dist) == g
    ensures swapped == match g
                       case 1 => LzState(st.num, dist, st.rep0, st.rep2, st.rep3)
                       case 2 => LzState(st.num, dist, st.rep0, st.rep1, st.rep3)
                       case _ => LzState(st.num, dist, st.rep0, st.rep1, st.rep2)
    ensures dist == match g case 1 => st.rep1 case 2 => st.rep2 case _ => st.rep3
  {
    swapped := match g
               case 1 => LzState(st.num, dist, st.rep0, st.rep2, st.rep3)
               case 2 => LzState(st.num, dist, st.rep0, st.rep1, st.rep3)
               case _ => LzState(st.num, dist, st.rep0, st.rep1, st.rep2);
  }

  // ----- lists of operations over a history -----

  function Apply(hist: seq<Byte>, op: Op): (h: seq<Byte>)
    requires op.Match? ==> 1 <= op.distance <= |hist|
    ensures |h| == |hist| + OpLen(op) && hist <= h
  {
    match op
    case Literal(b) => hist + [b]
    case Match(distance, n) => CopyBack(hist, distance, n)
  }

  /** An operation an encoder with a dictionary of `cap` bytes may choose. */
  predicate ValidOp(st: LzState, hist: seq<Byte>, cap: nat, op: Op)
  {
    Writable(st, op) && (op.Match? ==> op.distance <= DictLen(hist, cap))
  }

  predicate ValidOps(st: LzState, hist: seq<Byte>, cap: nat, ops: seq<Op>)
    decreases |ops|
  {
    ops == [] || (ValidOp(st, hist, cap, ops[0]) && ValidOps(NextState(st, ops[0]), Apply(hist, ops[0]), cap, ops[1..]))
  }

  function Expand(st: LzState, hist: seq<Byte>, cap: nat, ops: seq<Op>): (h: seq<Byte>)
    requires ValidOps(st, hist, cap, ops)
    ensures hist <= h && |h| >= |hist| + |ops|
    decreases |ops|
  {
    if ops == [] then hist else Expand(NextState(st, ops[0]), Apply(hist, ops[0]), cap, ops[1..])
  }

  function FinalState(st: LzState, hist: seq<Byte>, cap: nat, ops: seq<Op>): LzState
    requires ValidOps(st, hist, cap, ops)
    decreases |ops|
  {
    if ops == [] then st else FinalState(NextState(st, ops[0]), Apply(hist, ops[0]), cap, ops[1..])
  }

  const EOS_MATCH: Op := Match(MAX_DISTANCE, MIN_MATCH_LEN)

  /** All the coded bits of a list of operations, followed by the marker when one is wanted. */
  function OpsEvents(st: LzState, props: Props, hist: seq<Byte>, cap: nat, ops: seq<Op>, marker: bool): seq<Event>
    requires PropsOk(props) && ValidOps(st, hist, cap, ops)
    decreases |ops|
  {
    if ops == [] then
      if marker then OpEvents(st, props, ContextOf(st, hist, cap), EOS_MATCH) else []
    else
      OpEvents(st, props, ContextOf(st, hist, cap), ops[0]) +
      OpsEvents(NextState(st, ops[0]), props, Apply(hist, ops[0]), cap, ops[1..], marker)
  }

  /** Remembered distances point into the dictionary, or are the initial 0. */
  predicate RepsOk(st: LzState, hist: seq<Byte>, cap: nat)
  {
    forall rep :: rep in [st.rep0, st.rep1, st.rep2, st.rep3] ==> rep == 0 || rep < DictLen(hist, cap)
  }

  lemma NextRepsOk(st: LzState, hist: seq<Byte>, cap: nat, op: Op)
    requires RepsOk(st, hist, cap) && ValidOp(st, hist, cap, op)
    ensures RepsOk(NextState(st, op), Apply(hist, op), cap)
  {
    assert st.rep0 in [st.rep0, st.rep1, st.rep2, st.rep3] && st.rep1 in [st.rep0, st.rep1, st.rep2, st.rep3];
    assert st.rep2 in [st.rep0, st.rep1, st.rep2, st.rep3] && st.rep3 in [st.rep0, st.rep1, st.rep2, st.rep3];
  }

  /** A decoder dictionary that never forgets a byte the encoder may still use, for `total` bytes of history. */
  predicate DictSuits(encCap: nat, decCap: nat, total: nat) { 1 <= encCap <= decCap || total <= decCap }

  lemma SameContext(st: LzState, hist: seq<Byte>, encCap: nat, decCap: nat)
    requires encCap >= 1 && RepsOk(st, hist, encCap) && DictSuits(encCap, decCap, |hist|)
    ensures ContextOf(st, hist, decCap) == ContextOf(st, hist, encCap)
    ensures DictLen(hist, encCap) <= DictLen(hist, decCap)
  {
    assert st.rep0 in [st.rep0, st.rep1, st.rep2, st.rep3];
  }

  lemma MarkerSeen(st: LzState, hist: seq<Byte>, cap: nat)
    requires RepsOk(st, hist, cap) && cap <= EOS_DIST
    ensures Writable(st, EOS_MATCH) && IsMarker(st, EOS_MATCH)
  {
    assert st.rep0 in [st.rep0, st.rep1, st.rep2, st.rep3] && st.rep1 in [st.rep0, st.rep1, st.rep2, st.rep3];
    assert st.rep2 in [st.rep0, st.rep1, st.rep2, st.rep3] && st.rep3 in [st.rep0, st.rep1, st.rep2, st.rep3];
  }

  // ----- the decoder loop -----

  /** A decoder between two operations: `start` is the head when the stream began, size < 0 when unknown. */
  datatype Decoding = Decoding(r: Reader, st: LzState, hist: seq<Byte>, start: nat, size: int, eos: bool)

  datatype Outcome = Full(d: Decoding) | AtEof(d: Decoding) | Failed(error: Error)

  function Decompressed(d: Decoding): int { |d.hist| - d.start }

  function AtMarker(d: Decoding): Outcome
  {
    if d.r.d.code != 0 then Failed(DataAfterEos)
    else if d.size >= 0 && d.size != Decompressed(d) then Failed(WrongSize)
    else AtEof(d)
  }

  /** The declared size is reached: the stream must end here, with or without a marker. */
  function AtSize(d: Decoding, props: Props, cap: nat): Outcome
    requires PropsOk(props)
  {
    if Decompressed(d) > d.size then Failed(WrongSize)
    else if d.r.d.code == 0 then AtEof(d)
    else
      match ReadOp(d.r, d.st, props, ContextOf(d.st, d.hist, cap))
      case Ok((None, st, r)) => AtEof(d.(r := r, st := st))
      case Ok((Some(_), _, _)) => Failed(WrongSize)
      case Err(e) => Failed(e)
  }

  /** Decode operations while `room` bytes of the window are free. */
  function Decompress(d: Decoding, props: Props, cap: nat, room: nat): Outcome
    requires PropsOk(props)
    decreases room
  {
    if d.eos then AtEof(d)
    else if room < MAX_MATCH_LEN then Full(d)
    else
      match ReadOp(d.r, d.st, props, ContextOf(d.st, d.hist, cap))
      case Err(e) => Failed(e)
      case Ok((None, st, r)) => AtMarker(d.(r := r, st := st, eos := true))
      case Ok((Some(op), st, r)) =>
        if op.Match? && !(0 < op.distance <= DictLen(d.hist, cap)) then Failed(DistanceOutOfRange)
        else if op.Match? && !(0 < op.n <= MAX_MATCH_LEN) then Failed(LengthOutOfRange)
        else
          var d' := Decoding(r, st, Apply(d.hist, op), d.start, d.size, false);
          if d.size >= 0 && Decompressed(d') >= d.size then AtSize(d'.(eos := true), props, cap)
          else Decompress(d', props, cap, room - OpLen(op))
  }

  /** The reader stands in front of exactly these operations. */
  ghost predicate OnTrack(d: Decoding, props: Props, encCap: nat, decCap: nat, ops: seq<Op>, marker: bool)
    requires PropsOk(props)
  {
    && 1 <= encCap <= EOS_DIST
    && !d.eos
    && d.start <= |d.hist|
    && RepsOk(d.st, d.hist, encCap)
    && ValidOps(d.st, d.hist, encCap, ops)
    && DictSuits(encCap, decCap, |Expand(d.st, d.hist, encCap, ops)|)
    && Follows(d.r, OpsEvents(d.st, props, d.hist, encCap, ops, marker))
    && After(d.r, OpsEvents(d.st, props, d.hist, encCap, ops, marker)).d.code == 0
    && After(d.r, OpsEvents(d.st, props, d.hist, encCap, ops, marker)).d.rest == []
    && (d.size < 0 || d.size == |Expand(d.st, d.hist, encCap, ops)| - d.start)
    && (d.size < 0 ==> marker)
    && (ops == [] ==> marker)
  }

  /** One step of the loop on track: the operation is read, applied, and the rest is still on track. */
  lemma OnTrackStep(d: Decoding, props: Props, encCap: nat, decCap: nat, ops: seq<Op>, marker: bool)
    requires PropsOk(props) && OnTrack(d, props, encCap, decCap, ops, marker) && ops != []
    ensures var evs := OpEvents(d.st, props, ContextOf(d.st, d.hist, encCap), ops[0]);
            && Follows(d.r, evs)
            && ReadOp(d.r, d.st, props, ContextOf(d.st, d.hist, decCap)) ==
               Ok((Some(ops[0]), NextState(d.st, ops[0]), After(d.r, evs)))
            && (ops[0].Match? ==> ops[0].distance <= DictLen(d.hist, decCap))
            && var d' := AfterOp(d, props, encCap, ops);
               && (ops[1..] != [] || marker ==> OnTrack(d', props, encCap, decCap, ops[1..], marker))
               && (ops[1..] == [] && !marker ==> d'.r.d.code == 0 && d'.r.d.rest == [])
               && Follows(d'.r, OpsEvents(d'.st, props, d'.hist, encCap, ops[1..], marker))
               && After(d'.r, OpsEvents(d'.st, props, d'.hist, encCap, ops[1..], marker)) ==
                  After(d.r, OpsEvents(d.st, props, d.hist, encCap, ops, marker))
               && (ops[1..] != [] && d.size >= 0 ==> Decompressed(d') < d.size)
  {
    hide Follows, After, OpEvents, ReadOp, ContextOf, NextState;
    var op := ops[0];
    var ctx := ContextOf(d.st, d.hist, encCap);
    var evs := OpEvents(d.st, props, ctx, op);
    var hist' := Apply(d.hist, op);
    var rest := OpsEvents(NextState(d.st, op), props, hist', encCap, ops[1..], marker);
    SameContext(d.st, d.hist, encCap, decCap);
    NextRepsOk(d.st, d.hist, encCap, op);
    FollowsConcat(d.r, evs, rest);
    OpRoundTrip(d.r, d.st, props, ctx, op);
    if marker { MarkerSeen(d.st, d.hist, encCap); }
    if ops[1..] == [] && !marker { AfterNone(After(d.r, evs)); }
    assert |Expand(NextState(d.st, op), hist', encCap, ops[1..])| >= |hist'| + |ops[1..]|;
  }

  /** At the end of the operations the marker, if any, is read. */
  lemma OnTrackMarker(d: Decoding, props: Props, encCap: nat, decCap: nat)
    requires PropsOk(props) && OnTrack(d, props, encCap, decCap, [], true)
    ensures var x := ReadOp(d.r, d.st, props, ContextOf(d.st, d.hist, decCap));
            x.Ok? && x.value.0 == None && x.value.2.d.code == 0
  {
    SameContext(d.st, d.hist, encCap, decCap);
    MarkerSeen(d.st, d.hist, encCap);
    OpRoundTrip(d.r, d.st, props, ContextOf(d.st, d.hist, encCap), EOS_MATCH);
  }

  /** Where a stream leads: the whole history, and the state and probabilities behind the last operation. */
  datatype Goal = Goal(hist: seq<Byte>, st: LzState, p: Probs)

  /** On track towards `goal`. */
  ghost predicate Towards(d: Decoding, props: Props, encCap: nat, decCap: nat, ops: seq<Op>, marker: bool, goal: Goal)
    requires PropsOk(props)
  {
    && OnTrack(d, props, encCap, decCap, ops, marker)
    && Expand(d.st, d.hist, encCap, ops) == goal.hist
    && FinalState(d.st, d.hist, encCap, ops) == goal.st
    && After(d.r, OpsEvents(d.st, props, d.hist, encCap, ops, marker)).p == goal.p
  }

  /** The decoder stopped in the right place. Without a marker nothing was read beyond the last operation. */
  predicate Finished(o: Outcome, marker: bool, goal: Goal)
  {
    o.AtEof? && o.d.eos && o.d.hist == goal.hist && (!marker ==> o.d.st == goal.st && o.d.r.p == goal.p && o.d.r.d.rest == [])
  }

  /** However the window cuts the stream, the decoder produces a prefix of the data, then all of it, then stops. */
  ghost predicate Faithful(o: Outcome, d: Decoding, props: Props, encCap: nat, decCap: nat, ops: seq<Op>, marker: bool, room: nat, goal: Goal)
    requires PropsOk(props)
  {
    match o
    case Failed(_) => false
    case AtEof(_) => Finished(o, marker, goal)
    case Full(d') =>
      && d.hist <= d'.hist
      && |d'.hist| - |d.hist| > room - MAX_MATCH_LEN
      && exists k: nat :: k <= |ops| && Towards(d', props, encCap, decCap, ops[k..], marker, goal)
  }

  lemma LaterFaithful(o: Outcome, d: Decoding, d': Decoding, props: Props, encCap: nat, decCap: nat, ops: seq<Op>, marker: bool, room: nat, room': nat, goal: Goal)
    requires PropsOk(props) && ops != [] && d.hist <= d'.hist && room' + |d'.hist| == room + |d.hist|
    requires Faithful(o, d', props, encCap, decCap, ops[1..], marker, room', goal)
    ensures Faithful(o, d, props, encCap, decCap, ops, marker, room, goal)
  {
    if o.Full? {
      var k: nat :| k <= |ops[1..]| && Towards(o.d, props, encCap, decCap, ops[1..][k..], marker, goal);
      assert ops[1..][k..] == ops[k + 1..];
    }
  }

  lemma {:induction false} DecompressOnTrack(d: Decoding, props: Props, encCap: nat, decCap: nat, ops: seq<Op>, marker: bool, room: nat, goal: Goal)
    requires PropsOk(props) && Towards(d, props, encCap, decCap, ops, marker, goal)
    ensures Faithful(Decompress(d, props, decCap, room), d, props, encCap, decCap, ops, marker, room, goal)
    decreases room
  {
    hide Decompress, Towards, OnTrack;
    if room < MAX_MATCH_LEN || ops == [] {
      DecompressStops(d, props, encCap, decCap, ops, marker, room, goal);
    } else {
      var d' := OnTrackNext(d, props, encCap, decCap, ops, marker, room, goal);
      var room' := room - OpLen(ops[0]);
      if !Finished(Decompress(d, props, decCap, room), marker, goal) {
        DecompressOnTrack(d', props, encCap, decCap, ops[1..], marker, room', goal);
        LaterFaithful(Decompress(d', props, decCap, room'), d, d', props, encCap, decCap, ops, marker, room, room', goal);
      }
    }
  }

  lemma DecompressStops(d: Decoding, props: Props, encCap: nat, decCap: nat, ops: seq<Op>, marker: bool, room: nat, goal: Goal)
    requires PropsOk(props) && Towards(d, props, encCap, decCap, ops, marker, goal)
    requires room < MAX_MATCH_LEN || ops == []
    ensures Faithful(Decompress(d, props, decCap, room), d, props, encCap, decCap, ops, marker, room, goal)
  {
    if room < MAX_MATCH_LEN {
      assert ops[0..] == ops;
    } else {
      OnTrackMarker(d, props, encCap, decCap);
    }
  }

  /** The reader after the next operation. */
  ghost function AfterOp(d: Decoding, props: Props, encCap: nat, ops: seq<Op>): Decoding
    requires PropsOk(props) && ops != [] && ValidOp(d.st, d.hist, encCap, ops[0])
    requires Follows(d.r, OpEvents(d.st, props, ContextOf(d.st, d.hist, encCap), ops[0]))
  {
    Decoding(After(d.r, OpEvents(d.st, props, ContextOf(d.st, d.hist, encCap), ops[0])),
             NextState(d.st, ops[0]), Apply(d.hist, ops[0]), d.start, d.size, false)
  }

  /** The next operation either completes the data or leaves the reader on track for the rest. */
  lemma OnTrackNext(d: Decoding, props: Props, encCap: nat, decCap: nat, ops: seq<Op>, marker: bool, room: nat, goal: Goal) returns (d': Decoding)
    requires PropsOk(props) && Towards(d, props, encCap, decCap, ops, marker, goal) && ops != [] && room >= MAX_MATCH_LEN
    ensures d.hist <= d'.hist && |d'.hist| == |d.hist| + OpLen(ops[0])
    ensures 1 <= OpLen(ops[0]) <= MAX_MATCH_LEN
    ensures Finished(Decompress(d, props, decCap, room), marker, goal) ||
            (Decompress(d, props, decCap, room) == Decompress(d', props, decCap, room - OpLen(ops[0])) &&
             Towards(d', props, encCap, decCap, ops[1..], marker, goal))
  {
    hide Decompress, ReadOp, OpEvents, OpsEvents, ContextOf, Follows, After, AtSize;
    OnTrackStep(d, props, encCap, decCap, ops, marker);
    d' := AfterOp(d, props, encCap, ops);
    StepTaken(d, d', ops[0], props, encCap, decCap, room);
    var last := d.size >= 0 && Decompressed(d') >= d.size;
    if last {
      LastOpOnTrack(d, d', props, encCap, decCap, ops, marker, goal);
    } else {
      MoreOps(d, d', props, encCap, decCap, ops, marker, goal);
    }
  }

  lemma StepTaken(d: Decoding, d': Decoding, op: Op, props: Props, encCap: nat, decCap: nat, room: nat)
    requires PropsOk(props) && !d.eos && ValidOp(d.st, d.hist, encCap, op) && room >= MAX_MATCH_LEN
    requires ReadOp(d.r, d.st, props, ContextOf(d.st, d.hist, decCap)) == Ok((Some(op), d'.st, d'.r))
    requires op.Match? ==> op.distance <= DictLen(d.hist, decCap)
    requires d' == Decoding(d'.r, d'.st, Apply(d.hist, op), d.start, d.size, false)
    ensures Decompress(d, props, decCap, room) ==
            if d.size >= 0 && Decompressed(d') >= d.size then AtSize(d'.(eos := true), props, decCap)
            else Decompress(d', props, decCap, room - OpLen(op))
  {
    hide ReadOp, ContextOf;
  }

  lemma MoreOps(d: Decoding, d': Decoding, props: Props, encCap: nat, decCap: nat, ops: seq<Op>, marker: bool, goal: Goal)
    requires PropsOk(props) && Towards(d, props, encCap, decCap, ops, marker, goal) && ops != []
    requires ops[1..] != [] || marker ==> OnTrack(d', props, encCap, decCap, ops[1..], marker)
    requires d'.st == NextState(d.st, ops[0]) && d'.hist == Apply(d.hist, ops[0]) && d'.start == d.start
    requires Follows(d'.r, OpsEvents(d'.st, props, d'.hist, encCap, ops[1..], marker))
    requires After(d'.r, OpsEvents(d'.st, props, d'.hist, encCap, ops[1..], marker)).p == goal.p
    requires d.size < 0 || Decompressed(d') < d.size
    ensures Towards(d', props, encCap, decCap, ops[1..], marker, goal)
  {
    hide Follows, After, OpsEvents, RepsOk, DictSuits;
    assert goal.hist == Expand(d'.st, d'.hist, encCap, ops[1..]);
    if ops[1..] == [] && !marker {
      assert false;
    }
  }

  lemma LastOpOnTrack(d: Decoding, d': Decoding, props: Props, encCap: nat, decCap: nat, ops: seq<Op>, marker: bool, goal: Goal)
    requires PropsOk(props) && Towards(d, props, encCap, decCap, ops, marker, goal) && ops != []
    requires ops[1..] != [] || marker ==> OnTrack(d', props, encCap, decCap, ops[1..], marker)
    requires ops[1..] == [] && !marker ==> d'.r.d.code == 0 && d'.r.d.rest == []
    requires Follows(d'.r, OpsEvents(d'.st, props, d'.hist, encCap, ops[1..], marker))
    requires After(d'.r, OpsEvents(d'.st, props, d'.hist, encCap, ops[1..], marker)).p == goal.p
    requires d'.st == NextState(d.st, ops[0]) && d'.hist == Apply(d.hist, ops[0]) && d'.start == d.start && d'.size == d.size
    requires d.size >= 0 && Decompressed(d') >= d.size
    ensures var o := AtSize(d'.(eos := true), props, decCap);
            Finished(o, marker, goal)
  {
    assert |Expand(d'.st, d'.hist, encCap, ops[1..])| >= |d'.hist| + |ops[1..]|;
    assert FinalState(d'.st, d'.hist, encCap, ops[1..]) == goal.st == d'.st;
    if marker { OnTrackMarker(d', props, encCap, decCap); } else { AfterNone(d'.r); }
  }

  // ----- a whole stream -----

  /** The bytes of a stream: the operations, the marker when wanted, and the closing bytes of the range coder. */
  function EncodeStream(p: Probs, st: LzState, props: Props, hist: seq<Byte>, cap: nat, ops: seq<Op>, marker: bool): seq<Byte>
    requires ProbsOk(p) && PropsOk(props) && ValidOps(st, hist, cap, ops)
  {
    Encode(OpsEvents(st, props, hist, cap, ops, marker), p)
  }

  /** The writer's own end: what the decoder must agree on afterwards. */
  function StreamGoal(p: Probs, st: LzState, props: Props, hist: seq<Byte>, cap: nat, ops: seq<Op>, marker: bool): Goal
    requires ProbsOk(p) && PropsOk(props) && ValidOps(st, hist, cap, ops)
  {
    Goal(Expand(st, hist, cap, ops), FinalState(st, hist, cap, ops),
         WriteAll(Start(p), OpsEvents(st, props, hist, cap, ops, marker)).p)
  }

  /** A reader opened on an encoder's bytes, with the same state and history, is on track. */
  lemma StreamOnTrack(p: Probs, st: LzState, props: Props, hist: seq<Byte>, encCap: nat, decCap: nat, ops: seq<Op>, marker: bool, size: int)
    requires ProbsOk(p) && PropsOk(props) && ValidOps(st, hist, encCap, ops) && RepsOk(st, hist, encCap)
    requires 1 <= encCap <= EOS_DIST && DictSuits(encCap, decCap, |Expand(st, hist, encCap, ops)|)
    requires size < 0 || size == |Expand(st, hist, encCap, ops)| - |hist|
    requires (size < 0 ==> marker) && (ops == [] ==> marker)
    ensures NewDecoder(EncodeStream(p, st, props, hist, encCap, ops, marker)).Ok?
    ensures var r := Reader(NewDecoder(EncodeStream(p, st, props, hist, encCap, ops, marker)).value, p);
            Towards(Decoding(r, st, hist, |hist|, size, false), props, encCap, decCap, ops, marker,
                    StreamGoal(p, st, props, hist, encCap, ops, marker))
  {
    RangeSpec.RoundTrip(OpsEvents(st, props, hist, encCap, ops, marker), p);
  }

  /** Decoding with an unlimited window gives back the data, for every list of valid operations. */
  lemma StreamRoundTrip(p: Probs, st: LzState, props: Props, hist: seq<Byte>, encCap: nat, decCap: nat, ops: seq<Op>, marker: bool, size: int, room: nat)
    requires ProbsOk(p) && PropsOk(props) && ValidOps(st, hist, encCap, ops) && RepsOk(st, hist, encCap)
    requires 1 <= encCap <= EOS_DIST && DictSuits(encCap, decCap, |Expand(st, hist, encCap, ops)|)
    requires size < 0 || size == |Expand(st, hist, encCap, ops)| - |hist|
    requires (size < 0 ==> marker) && (ops == [] ==> marker)
    requires room >= |Expand(st, hist, encCap, ops)| - |hist| + MAX_MATCH_LEN
    ensures NewDecoder(EncodeStream(p, st, props, hist, encCap, ops, marker)).Ok?
    ensures var r := Reader(NewDecoder(EncodeStream(p, st, props, hist, encCap, ops, marker)).value, p);
            Finished(Decompress(Decoding(r, st, hist, |hist|, size, false), props, decCap, room), marker,
                     StreamGoal(p, st, props, hist, encCap, ops, marker))
  {
    StreamOnTrack(p, st, props, hist, encCap, decCap, ops, marker, size);
    var r := Reader(NewDecoder(EncodeStream(p, st, props, hist, encCap, ops, marker)).value, p);
    var d := Decoding(r, st, hist, |hist|, size, false);
    var goal := StreamGoal(p, st, props, hist, encCap, ops, marker);
    DecompressOnTrack(d, props, encCap, decCap, ops, marker, room, goal);
  }

  /**
   The one stream the decoder cannot read back: no data, no marker, and the size 0 in the header.
   It looks for an operation before it compares sizes, and runs out of bytes or finds one too many.
   */
  lemma EmptySizedStream(p: Probs, st: LzState, props: Props, hist: seq<Byte>, cap: nat, decCap: nat, room: nat)
    requires ProbsOk(p) && PropsOk(props) && room >= MAX_MATCH_LEN
    ensures NewDecoder(EncodeStream(p, st, props, hist, cap, [], false)).Ok?
    ensures var r := Reader(NewDecoder(EncodeStream(p, st, props, hist, cap, [], false)).value, p);
            !Decompress(Decoding(r, st, hist, |hist|, 0, false), props, decCap, room).AtEof?
  {
    hide ReadOp, NewDecoder, ContextOf, Close, Decompress, Follows, After, WriteAll, Encode;
    RangeSpec.RoundTrip([], p);
    StartInStep([], p);
    assert OpsEvents(st, props, hist, cap, [], false) == [];
    var r := Reader(NewDecoder(Encode([], p)).value, p);
    AfterNone(r);
    ZeroCodeIsLiteral(r, st, props, ContextOf(st, hist, decCap));
    LiteralOverruns(Decoding(r, st, hist, |hist|, 0, false), props, decCap, room);
  }

  lemma LiteralOverruns(d: Decoding, props: Props, cap: nat, room: nat)
    requires PropsOk(props) && room >= MAX_MATCH_LEN && !d.eos && d.size == 0 && d.start == |d.hist|
    requires var x := ReadOp(d.r, d.st, props, ContextOf(d.st, d.hist, cap)); x.Err? || (x.value.0.Some? && x.value.0.value.Literal?)
    ensures Decompress(d, props, cap, room).Failed?
  {
    hide ReadOp, ContextOf;
  }

  /** Code 0 always selects the lower half: whatever is read is a literal. */
  lemma ZeroCodeIsLiteral(r: Reader, st: LzState, props: Props, ctx: Context)
    requires PropsOk(props) && r.d.code == 0 && r.d.nrange >= TWO24 && ProbsOk(r.p)
    ensures var x := ReadOp(r, st, props, ctx); x.Err? || (x.value.0.Some? && x.value.0.value.Literal?)
  {
    hide NormalizeDecoder, DecodeLiteral, LitState;
    BoundSplits(r.d.nrange, Get(r.p, IsMatch(State2(st.num, PosState(props, ctx.head)))));
  }

  lemma FinishedIsEof(marker: bool)
    ensures forall o: Outcome, goal: Goal :: Finished(o, marker, goal) ==> o.AtEof?
  {
  }

  /** A stream with its size in the header is read back exactly when it holds data or ends with a marker. */
  lemma SizedStreamIff(p: Probs, st: LzState, props: Props, hist: seq<Byte>, encCap: nat, decCap: nat, ops: seq<Op>, marker: bool, room: nat)
    requires ProbsOk(p) && PropsOk(props) && ValidOps(st, hist, encCap, ops) && RepsOk(st, hist, encCap)
    requires 1 <= encCap <= EOS_DIST && DictSuits(encCap, decCap, |Expand(st, hist, encCap, ops)|)
    requires room >= |Expand(st, hist, encCap, ops)| - |hist| + MAX_MATCH_LEN
    ensures NewDecoder(EncodeStream(p, st, props, hist, encCap, ops, marker)).Ok?
    ensures var r := Reader(NewDecoder(EncodeStream(p, st, props, hist, encCap, ops, marker)).value, p);
            var size := |Expand(st, hist, encCap, ops)| - |hist|;
            var o := Decompress(Decoding(r, st, hist, |hist|, size, false), props, decCap, room);
            && (o.AtEof? <==> ops != [] || marker)
            && (ops != [] || marker ==> Finished(o, marker, StreamGoal(p, st, props, hist, encCap, ops, marker)))
  {
    hide NewDecoder, Decompress, EncodeStream, Finished, RepsOk, ProbsOk, StreamGoal, ValidOps, DictSuits;
    if ops != [] || marker {
      FinishedIsEof(marker);
      StreamRoundTrip(p, st, props, hist, encCap, decCap, ops, marker, |Expand(st, hist, encCap, ops)| - |hist|, room);
    } else {
      EmptySizedStream(p, st, props, hist, encCap, decCap, room);
    }
  }
}
