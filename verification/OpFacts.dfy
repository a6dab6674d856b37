/**
 What the state of the operation layer records, said of the operations alone: which of the last four made the state number,
 which distances are remembered, and which operations share their cells.
 */
module OpFacts {
  import opened Bits
  import opened Cells
  import opened RangeSpec
  import opened CodecSpec
  import opened OpSpec
  import CodecFacts

  // ----- the last four operations -----

  /** A match at a new distance, one at a remembered distance, or one byte at the most recent distance. */
  datatype Kind = Plain | New | Rep | Short

  function Reps(st: LzState): seq<nat> { [st.rep0, st.rep1, st.rep2, st.rep3] }

  function KindOf(st: LzState, op: Op): Kind
    requires Writable(st, op)
  {
    if op.Literal? then Plain else if op.n == 1 then Short else if op.distance - 1 in Reps(st) then Rep else New
  }

  /** The state number for the last operation that is not a literal, what came before it, and how many literals have followed. */
  function NumFor(last: Kind, behindLiteral: bool, literals: nat): nat
  {
    if last == Plain || literals >= 3 then 0
    else if literals == 2 then if last == New then 1 else if last == Short && behindLiteral then 3 else 2
    else if literals == 1 then if last == New then 4 else if last == Short && behindLiteral then 6 else 5
    else if !behindLiteral then if last == New then 10 else 11
    else if last == New then 7 else if last == Rep then 8 else 9
  }

  /** The kinds of all operations. */
  function Kinds(st: LzState, hist: seq<Byte>, cap: nat, ops: seq<Op>): (ks: seq<Kind>)
    requires ValidOps(st, hist, cap, ops)
    ensures |ks| == |ops|
    decreases |ops|
  {
    if ops == [] then [] else [KindOf(st, ops[0])] + Kinds(NextState(st, ops[0]), Apply(hist, ops[0]), cap, ops[1..])
  }

  /** How many literals come last. */
  function Trailing(ks: seq<Kind>): (n: nat)
    ensures n <= |ks| && (forall i :: |ks| - n <= i < |ks| ==> ks[i] == Plain) && (n < |ks| ==> ks[|ks| - n - 1] != Plain)
  {
    if ks == [] || ks[|ks| - 1] != Plain then 0 else 1 + Trailing(ks[..|ks| - 1])
  }

  /** The state number is a record of the last operations, with literals before the first. */
  lemma NumRecord(cap: nat, ops: seq<Op>)
    requires ValidOps(INITIAL_STATE, [], cap, ops)
    ensures var ks := Kinds(INITIAL_STATE, [], cap, ops);
            var j := |ks| - Trailing(ks) - 1;
            FinalState(INITIAL_STATE, [], cap, ops).num ==
            if j < 0 then 0 else NumFor(ks[j], j == 0 || ks[j - 1] == Plain, Trailing(ks))
  {
    NumIs(cap, ops);
  }

  function Recorded(ks: seq<Kind>): nat
  {
    var j := |ks| - Trailing(ks) - 1;
    if j < 0 then 0 else NumFor(ks[j], j == 0 || ks[j - 1] == Plain, Trailing(ks))
  }

  lemma {:induction false} NumFrom(st: LzState, hist: seq<Byte>, cap: nat, ops: seq<Op>, before: seq<Kind>)
    requires ValidOps(st, hist, cap, ops) && st.num == Recorded(before)
    ensures FinalState(st, hist, cap, ops).num == Recorded(before + Kinds(st, hist, cap, ops))
    decreases |ops|
  {
    hide Recorded;
    if ops == [] {
      assert before + [] == before;
    } else {
      var k := KindOf(st, ops[0]);
      NumNext(st, ops[0], before);
      assert before + Kinds(st, hist, cap, ops) == before + [k] + Kinds(NextState(st, ops[0]), Apply(hist, ops[0]), cap, ops[1..]);
      NumFrom(NextState(st, ops[0]), Apply(hist, ops[0]), cap, ops[1..], before + [k]);
    }
  }

  lemma NumNext(st: LzState, op: Op, ks: seq<Kind>)
    requires Writable(st, op) && st.num == Recorded(ks)
    ensures NextState(st, op).num == Recorded(ks + [KindOf(st, op)])
  {
    hide Recorded;
    if op.Literal? { PlainNext(ks); } else { OtherNext(ks, KindOf(st, op)); }
  }

  lemma PlainNext(ks: seq<Kind>)
    ensures Recorded(ks + [Plain]) == AfterLiteral(Recorded(ks))
  {
    hide Trailing;
    var more := ks + [Plain];
    TrailingSnoc(ks, Plain);
    var j := |ks| - Trailing(ks) - 1;
    if j >= 0 {
      assert more[j] == ks[j] && (j > 0 ==> more[j - 1] == ks[j - 1]);
    }
  }

  lemma OtherNext(ks: seq<Kind>, k: Kind)
    requires k != Plain
    ensures Recorded(ks + [k]) == if k == New then AfterMatch(Recorded(ks)) else if k == Rep then AfterRep(Recorded(ks)) else AfterShortRep(Recorded(ks))
  {
    hide Recorded;
    BehindLiteral(ks);
    TrailingSnoc(ks, k);
    OtherIs(ks, k);
  }

  lemma OtherIs(ks: seq<Kind>, k: Kind)
    requires k != Plain && Trailing(ks + [k]) == 0
    ensures Recorded(ks + [k]) == NumFor(k, ks == [] || ks[|ks| - 1] == Plain, 0)
  {
    hide Trailing;
    assert (ks + [k])[|ks|] == k;
    if ks != [] { assert (ks + [k])[|ks| - 1] == ks[|ks| - 1]; }
  }

  lemma TrailingSnoc(ks: seq<Kind>, k: Kind)
    ensures Trailing(ks + [k]) == if k == Plain then 1 + Trailing(ks) else 0
  {
    assert (ks + [k])[..|ks|] == ks;
  }

  /** Numbers from 7 on say that the last operation was a match. */
  lemma BehindLiteral(ks: seq<Kind>)
    ensures Recorded(ks) >= 7 <==> ks != [] && ks[|ks| - 1] != Plain
  {
  }

  /** A literal looks at the byte a match would have copied exactly when the operation before it was a match. */
  lemma MatchedLiterals(cap: nat, ops: seq<Op>)
    requires ValidOps(INITIAL_STATE, [], cap, ops)
    ensures FinalState(INITIAL_STATE, [], cap, ops).num >= 7 <==> ops != [] && ops[|ops| - 1].Match?
  {
    hide Recorded;
    var ks := Kinds(INITIAL_STATE, [], cap, ops);
    NumIs(cap, ops);
    BehindLiteral(ks);
    if ops != [] { LastKind(INITIAL_STATE, [], cap, ops); }
  }

  /** What a literal is coded against: the byte before it, and behind a match the byte with which the repetition would go on. */
  lemma {:induction false} ContextAfter(st: LzState, hist: seq<Byte>, cap: nat, ops: seq<Op>)
    requires ValidOps(st, hist, cap, ops) && ops != [] && cap >= 1
    ensures var h, last := Expand(st, hist, cap, ops), ops[|ops| - 1];
            var c := ContextOf(FinalState(st, hist, cap, ops), h, cap);
            c.head == |h| && h != [] && c.prev == h[|h| - 1] && (last.Match? ==> 1 <= last.distance <= |h| && c.matchByte == h[|h| - last.distance])
    decreases |ops|
  {
    if |ops| > 1 {
      ContextAfter(NextState(st, ops[0]), Apply(hist, ops[0]), cap, ops[1..]);
    } else {
      assert ops[1..] == [];
    }
  }

  lemma NumIs(cap: nat, ops: seq<Op>)
    requires ValidOps(INITIAL_STATE, [], cap, ops)
    ensures FinalState(INITIAL_STATE, [], cap, ops).num == Recorded(Kinds(INITIAL_STATE, [], cap, ops))
  {
    NumFrom(INITIAL_STATE, [], cap, ops, []);
    assert [] + Kinds(INITIAL_STATE, [], cap, ops) == Kinds(INITIAL_STATE, [], cap, ops);
  }

  lemma {:induction false} LastKind(st: LzState, hist: seq<Byte>, cap: nat, ops: seq<Op>)
    requires ValidOps(st, hist, cap, ops) && ops != []
    ensures Kinds(st, hist, cap, ops)[|ops| - 1] == Plain <==> ops[|ops| - 1].Literal?
    decreases |ops|
  {
    if |ops| > 1 { LastKind(NextState(st, ops[0]), Apply(hist, ops[0]), cap, ops[1..]); }
  }

  // ----- remembered distances -----

  /** x in front of the others, in their order, without x, or without the last if x is new. */
  function ToFront(reps: seq<nat>, x: nat): seq<nat>
    requires reps != []
  {
    [x] + Without(reps, x)
  }

  function Without(reps: seq<nat>, x: nat): seq<nat>
    requires reps != []
  {
    if |reps| == 1 || reps[0] == x then reps[1..] else [reps[0]] + Without(reps[1..], x)
  }

  /** Every match puts its distance in front of the remembered ones; a literal leaves them alone. */
  lemma RepsMoved(st: LzState, op: Op)
    requires Writable(st, op)
    ensures Reps(NextState(st, op)) == if op.Literal? then Reps(st) else ToFront(Reps(st), op.distance - 1)
  {
    if op.Match? {
      var x := op.distance - 1;
      var a, b, c, d := st.rep0, st.rep1, st.rep2, st.rep3;
      assert Without([d], x) == [];
      assert [c, d][1..] == [d] && Without([c, d], x) == if c == x then [d] else [c];
      assert [b, c, d][1..] == [c, d] && Without([b, c, d], x) == if b == x then [c, d] else [b] + Without([c, d], x);
      assert [a, b, c, d][1..] == [b, c, d];
    }
  }

  // ----- the flags of an operation -----

  /** The position within the pattern that pb bits tell apart. */
  function Position(props: Props, head: nat): nat { head % Pow2(props.pb) }

  /** The flags in front of a match, and where its length and distance are coded. */
  lemma MatchFlags(st: LzState, props: Props, ctx: Context, distance: nat, n: nat)
    requires PropsOk(props) && Writable(st, Match(distance, n))
    ensures var ps, x, e := Position(props, ctx.head), distance - 1, OpEvents(st, props, ctx, Match(distance, n));
            var num, flag := st.num, Model(IsMatch(16 * st.num + Position(props, ctx.head)), 1);
            if x !in Reps(st) then
              n >= 2 && e == [flag, Model(IsRep(num), 0)] + EncodeLen(false, n - 2, ps) + EncodeDist(x, n - 2)
            else if x == st.rep0 && n == 1 then
              e == [flag, Model(IsRep(num), 1), Model(IsRepG0(num), 0), Model(IsRepG0Long(16 * num + ps), 0)]
            else if x == st.rep0 then
              e == [flag, Model(IsRep(num), 1), Model(IsRepG0(num), 0), Model(IsRepG0Long(16 * num + ps), 1)] + EncodeLen(true, n - 2, ps)
            else if x == st.rep1 then
              n >= 2 && e == [flag, Model(IsRep(num), 1), Model(IsRepG0(num), 1), Model(IsRepG1(num), 0)] + EncodeLen(true, n - 2, ps)
            else
              n >= 2 && e == [flag, Model(IsRep(num), 1), Model(IsRepG0(num), 1), Model(IsRepG1(num), 1),
                              Model(IsRepG2(num), if x == st.rep2 then 0 else 1)] + EncodeLen(true, n - 2, ps)
  {
    hide EncodeLen, EncodeDist, Pow2;
  }

  /** Two operations share the cell of their first flag exactly when state number and position agree. */
  lemma FirstFlagShared(st: LzState, ctx: Context, op: Op, st': LzState, ctx': Context, op': Op, props: Props)
    requires PropsOk(props) && Writable(st, op) && Writable(st', op')
    ensures var e, e' := OpEvents(st, props, ctx, op), OpEvents(st', props, ctx', op');
            && e != [] && e' != [] && e[0].Model? && e'[0].Model?
            && (e[0].b == 1 <==> op.Match?)
            && (e[0].c == e'[0].c <==> st.num == st'.num && ctx.head % Pow2(props.pb) == ctx'.head % Pow2(props.pb))
  {
    hide EncodeLen, EncodeDist, EncodeLiteral, LitState, RepEvents, Pow2;
    PositionSmall(props, ctx.head);
    PositionSmall(props, ctx'.head);
  }

  lemma PositionSmall(props: Props, head: nat)
    requires PropsOk(props)
    ensures head % Pow2(props.pb) < 16
  {
    Pow2Mono(props.pb, 4);
    assert Pow2(4) == 16;
  }

  /** Two contexts share a literal table exactly when the positions agree in lp bits and the bytes before in their top lc bits. */
  lemma LiteralTableShared(props: Props, ctx: Context, ctx': Context)
    requires PropsOk(props)
    ensures LitState(props, ctx) == LitState(props, ctx') <==>
            ctx.head % Pow2(props.lp) == ctx'.head % Pow2(props.lp) &&
            ctx.prev as int / Pow2(8 - props.lc) == ctx'.prev as int / Pow2(8 - props.lc)
  {
    hide Pow2, Shr, Low;
    TopBits(ctx.prev, props.lc);
    TopBits(ctx'.prev, props.lc);
    var p := Pow2(props.lc);
    var a, a' := ctx.head % Pow2(props.lp), ctx'.head % Pow2(props.lp);
    var c, c' := Shr(ctx.prev, 8 - props.lc), Shr(ctx'.prev, 8 - props.lc);
    if a * p + c == a' * p + c' { SameQuotient(a, c, a', c', p); }
  }

  lemma TopBits(b: Byte, lc: nat)
    requires lc <= 8
    ensures Shr(b, 8 - lc) == b as int / Pow2(8 - lc) && Shr(b, 8 - lc) < Pow2(lc)
  {
    hide Pow2, Shr, Low;
    CodecFacts.ShrQuotient(b, 8 - lc);
    ShrLow(b, 8 - lc);
    Pow2Add(8 - lc, lc);
    PowersToByte();
    if Shr(b, 8 - lc) >= Pow2(lc) { MulDifference(Shr(b, 8 - lc), Pow2(lc), Pow2(8 - lc)); }
  }

  /** The end marker: the largest slot, and ones for all bits below it. */
  lemma MarkerDistance(j: nat)
    requires j < 36
    ensures var e := EncodeDist(EOS_DIST, 0); |e| == 36 && e[j].b == 1 && (e[j].Direct? <==> 6 <= j < 32)
  {
    hide Pow2, Shr, TreeEvents, EncodeTree, EncodeReverse, EncodeDirect, SlotOf;
    Pow2Word();
    Pow2Next(31);
    CodecFacts.ThreeBits();
    CodecFacts.SlotIs(EOS_DIST, 31);
    OnesAbove(EOS_DIST, 32, 30);
    CodecFacts.ShrQuotient(EOS_DIST, 30);
    var slot := SlotOf(EOS_DIST);
    if j < 6 {
      OnesAbove(slot, 6, 5 - j);
      CodecFacts.TreeEventAt(PosSlot(0), slot, j);
      CodecFacts.DistEvents(EOS_DIST, 0, 31, 0);
    } else {
      OnesAbove(EOS_DIST, 32, if j < 32 then 35 - j else j - 32);
      CodecFacts.DistEvents(EOS_DIST, 0, 31, j - 6);
    }
  }

  /** A number of ones has nothing but ones. */
  lemma {:induction false} OnesAbove(x: nat, n: nat, i: nat)
    requires x + 1 == Pow2(n) && i < n
    ensures Shr(x, i) + 1 == Pow2(n - i) && Shr(x, i) % 2 == 1
    decreases i
  {
    hide Pow2;
    Pow2Next(n - i - 1);
    Pow2Next(n - i);
    if i > 0 { OnesAbove(x, n, i - 1); }
  }
}
