/** How many bytes the coder can need at most, and why some inputs cannot get shorter. */
module LzmaSize {
  import opened Bits
  import opened Cells
  import opened RangeSpec
  import opened CodecSpec
  import opened OpSpec
  import Counting

  // ----- no more than a byte for a bit, and not many bits -----

  lemma WriteSize(w: Writer, ev: Event)
    requires WriterOk(w)
    ensures Len(w.e) <= Len(Write(w, ev).e) <= Len(w.e) + 1
  {
    hide Bound;
    EventSplits(w, ev);
    var off, wid := EventOffset(w, ev), EventRange(w, ev);
    if wid < TWO24 { ShiftSize(w.e.(low := w.e.low + off, nrange := wid * 256)); }
  }

  lemma ShiftSize(e: Encoder)
    requires e.cacheLen >= 1
    ensures Len(ShiftLow(e)) == Len(e) + 1
  {
  }

  lemma {:induction false} WriteAllSize(w: Writer, evs: seq<Event>)
    requires WriterOk(w)
    ensures Len(WriteAll(w, evs).e) <= Len(w.e) + |evs|
    decreases |evs|
  {
    hide Write;
    if evs != [] {
      WriteSize(w, evs[0]);
      WriteAllSize(Write(w, evs[0]), evs[1..]);
    }
  }

  lemma {:induction false} TreeSize(t: Tree, m: nat, v: nat, i: nat)
    ensures |TreeEvents(t, m, v, i)| == i
    decreases i
  {
    hide Shr;
    if i > 0 { TreeSize(t, 2 * m + Shr(v, i - 1) % 2, v, i - 1); }
  }

  lemma {:induction false} ReverseSize(t: Tree, m: nat, v: nat, j: nat, bits: nat)
    requires j <= bits
    ensures |ReverseEvents(t, m, v, j, bits)| == bits - j
    decreases bits - j
  {
    hide Shr;
    if j < bits { ReverseSize(t, 2 * m + Shr(v, j) % 2, v, j + 1, bits); }
  }

  lemma {:induction false} DirectSize(v: nat, i: nat)
    ensures |EncodeDirect(v, i)| == i
    decreases i
  {
    hide Shr;
    if i > 0 { DirectSize(v, i - 1); }
  }

  lemma LenSize(rep: bool, l: nat, posState: nat)
    ensures |EncodeLen(rep, l, posState)| == if l < 8 then 4 else if l < 16 then 5 else 10
  {
    TreeSize(LenLow(rep, posState), 1, l, 3);
    if l >= 8 { TreeSize(LenMid(rep, posState), 1, l - 8, 3); }
    if l >= 16 { TreeSize(LenHigh(rep), 1, l - 16, 8); }
  }

  lemma DistSize(dist: nat, l: nat)
    requires dist < 4096
    ensures |EncodeDist(dist, l)| <= 16
  {
    hide Shr, Pow2, SlotOf;
    var slot := SlotOf(dist);
    TreeSize(PosSlot(LenState(l)), 1, slot, 6);
    if slot >= 4 {
      SmallSlot(dist);
      var bits := slot / 2 - 1;
      if slot < 14 { ReverseSize(PosModel(slot - 4), 1, dist, 0, TreeBits(PosModel(slot - 4))); }
      else {
        DirectSize(Shr(dist, 4), bits - 4);
        ReverseSize(Align, 1, dist, 0, 4);
      }
    }
  }

  lemma SmallSlot(dist: nat)
    requires dist < 4096
    ensures SlotOf(dist) < 24
  {
    hide Shr;
    if dist >= 4 {
      assert Pow2(12) == 4096 by { assert Pow2(6) == 64; Pow2Add(6, 6); }
      BitLenBound(dist, 12);
    }
  }

  lemma {:induction false} PlainSize(k: nat, symbol: nat, r: nat, i: nat)
    requires i <= 8 && symbol >= Pow2(8 - i)
    ensures |PlainLiteral(k, symbol, r)| <= i
    decreases i
  {
    PowersToByte();
    if i > 0 {
      PlainSize(k, 2 * symbol + r / 128 % 2, 2 * r, i - 1);
    }
  }

  lemma {:induction false} MatchedSize(k: nat, symbol: nat, r: nat, m: nat, i: nat)
    requires i <= 8 && symbol >= Pow2(8 - i)
    ensures |MatchedLiteral(k, symbol, r, m)| <= i
    decreases i
  {
    PowersToByte();
    if i > 0 {
      PlainSize(k, 2 * symbol + r / 128 % 2, 2 * r, i - 1);
      MatchedSize(k, 2 * symbol + r / 128 % 2, 2 * r, 2 * m, i - 1);
    }
  }

  /** An operation within a small dictionary needs at most eleven coded bits for each of its bytes. */
  lemma OpSize(st: LzState, props: Props, ctx: Context, op: Op)
    requires PropsOk(props) && Writable(st, op) && (op.Match? ==> op.distance <= 4096)
    ensures |OpEvents(st, props, ctx, op)| <= 11 * OpLen(op)
  {
    hide EncodeLen, EncodeDist, PlainLiteral, MatchedLiteral, LitState, PosState;
    match op
    case Literal(b) =>
      PowersToByte();
      PlainSize(LitState(props, ctx), 1, b, 8);
      MatchedSize(LitState(props, ctx), 1, b, ctx.matchByte, 8);
    case Match(distance, n) =>
      var ps := PosState(props, ctx.head);
      if RepIndex(st, distance - 1) == 4 {
        LenSize(false, n - 2, ps);
        DistSize(distance - 1, n - 2);
      } else if n >= 2 {
        LenSize(true, n - 2, ps);
      }
  }

  lemma {:induction false} OpsSize(st: LzState, props: Props, hist: seq<Byte>, cap: nat, ops: seq<Op>)
    requires PropsOk(props) && ValidOps(st, hist, cap, ops) && cap <= 4096
    ensures |OpsEvents(st, props, hist, cap, ops, false)| <= 11 * (|Expand(st, hist, cap, ops)| - |hist|)
    decreases |ops|
  {
    hide OpEvents, NextState;
    if ops != [] {
      OpSize(st, props, ContextOf(st, hist, cap), ops[0]);
      OpsSize(NextState(st, ops[0]), props, Apply(hist, ops[0]), cap, ops[1..]);
    }
  }

  /** The coder of such operations holds at most as many bytes as they have coded bits, and the first one. */
  lemma StreamSize(p: Probs, st: LzState, props: Props, hist: seq<Byte>, cap: nat, ops: seq<Op>)
    requires ProbsOk(p) && PropsOk(props) && ValidOps(st, hist, cap, ops) && cap <= 4096
    ensures Len(WriteAll(Start(p), OpsEvents(st, props, hist, cap, ops, false)).e) <= 1 + 11 * (|Expand(st, hist, cap, ops)| - |hist|)
  {
    hide WriteAll, OpsEvents, Expand;
    WriteAllSize(Start(p), OpsEvents(st, props, hist, cap, ops, false));
    OpsSize(st, props, hist, cap, ops);
  }

  // ----- inputs that cannot get shorter -----

  /** The bytes of a number, n of them, lowest first. */
  function Text(k: nat, n: nat): (s: seq<Byte>)
    ensures |s| == n
    decreases n
  {
    if n == 0 then [] else [k % 256] + Text(k / 256, n - 1)
  }

  lemma TextParts(k: nat, n: nat)
    requires n > 0
    ensures Text(k, n)[0] == k % 256 && Text(k, n)[1..] == Text(k / 256, n - 1)
  {
  }

  lemma DivBelow(a: nat, p: nat)
    requires a < 256 * p
    ensures a / 256 < p
  {
  }

  lemma {:induction false} TextOnce(a: nat, b: nat, n: nat)
    requires a < Pow2(8 * n) && b < Pow2(8 * n) && Text(a, n) == Text(b, n)
    ensures a == b
    decreases n
  {
    hide Pow2, Text;
    if n == 0 {
      PowersToByte();
    } else {
      TextParts(a, n);
      TextParts(b, n);
      Pow2Add(8, 8 * (n - 1));
      PowersToByte();
      DivBelow(a, Pow2(8 * (n - 1)));
      DivBelow(b, Pow2(8 * (n - 1)));
      TextOnce(a / 256, b / 256, n - 1);
    }
  }

  /** A number for every byte string, different for different ones: its digits behind a leading one. */
  function Number(s: seq<Byte>): (k: nat)
    ensures k >= 1
  {
    if s == [] then 1 else Number(s[..|s| - 1]) * 256 + s[|s| - 1]
  }

  lemma {:induction false} NumberOnce(a: seq<Byte>, b: seq<Byte>)
    requires Number(a) == Number(b)
    ensures a == b
    decreases |a|
  {
    if a != [] && b != [] {
      NumberOnce(a[..|a| - 1], b[..|b| - 1]);
      assert a == a[..|a| - 1] + [a[|a| - 1]] && b == b[..|b| - 1] + [b[|b| - 1]];
    }
  }

  lemma {:induction false} NumberBound(s: seq<Byte>)
    ensures Number(s) < 2 * Pow2(8 * |s|)
    decreases |s|
  {
    hide Pow2;
    PowersToByte();
    if s != [] {
      NumberBound(s[..|s| - 1]);
      Pow2Add(8, 8 * (|s| - 1));
      PowersToByte();
    }
  }

  /** A stream of at most m bytes for the text. */
  ghost predicate Shorter(props: Props, cap: nat, text: seq<Byte>, m: nat, ops: seq<Op>)
    requires PropsOk(props)
  {
    ValidOps(INITIAL_STATE, [], cap, ops) && Expand(INITIAL_STATE, [], cap, ops) == text && ops != []
    && |EncodeStream(map[], INITIAL_STATE, props, [], cap, ops, false)| <= m
  }

  /** No operations whatever say the text in at most m bytes. */
  ghost predicate Hard(props: Props, cap: nat, text: seq<Byte>, m: nat)
    requires PropsOk(props)
  {
    forall ops: seq<Op> :: !Shorter(props, cap, text, m, ops)
  }

  /** A stream says only one text of a given length. */
  lemma OneText(props: Props, cap: nat, a: seq<Byte>, b: seq<Byte>, m: nat, opsA: seq<Op>, opsB: seq<Op>)
    requires PropsOk(props) && 1 <= cap <= EOS_DIST && |a| == |b|
    requires Shorter(props, cap, a, m, opsA) && Shorter(props, cap, b, m, opsB)
    requires EncodeStream(map[], INITIAL_STATE, props, [], cap, opsA, false) == EncodeStream(map[], INITIAL_STATE, props, [], cap, opsB, false)
    ensures a == b
  {
    hide EncodeStream, ValidOps, Expand, Decompress, NewDecoder, OpsEvents, WriteAll;
    StreamRoundTrip(map[], INITIAL_STATE, props, [], cap, cap, opsA, false, |a|, |a| + MAX_MATCH_LEN);
    StreamRoundTrip(map[], INITIAL_STATE, props, [], cap, cap, opsB, false, |a|, |a| + MAX_MATCH_LEN);
  }

  /** The operations of a shorter stream, for a text that has one. */
  ghost function Best(props: Props, cap: nat, text: seq<Byte>, m: nat): (ops: seq<Op>)
    requires PropsOk(props) && !Hard(props, cap, text, m)
    ensures Shorter(props, cap, text, m, ops)
  {
    var ops :| Shorter(props, cap, text, m, ops);
    ops
  }

  ghost function Stream(props: Props, cap: nat, n: nat, m: nat, k: nat): (s: seq<Byte>)
    requires PropsOk(props) && !Hard(props, cap, Text(k, n), m)
    ensures |s| <= m
  {
    EncodeStream(map[], INITIAL_STATE, props, [], cap, Best(props, cap, Text(k, n), m), false)
  }

  lemma StreamOnce(props: Props, cap: nat, n: nat, m: nat, j: nat, k: nat)
    requires PropsOk(props) && 1 <= cap <= EOS_DIST && j < Pow2(8 * n) && k < Pow2(8 * n)
    requires !Hard(props, cap, Text(j, n), m) && !Hard(props, cap, Text(k, n), m)
    requires Stream(props, cap, n, m, j) == Stream(props, cap, n, m, k)
    ensures j == k
  {
    hide EncodeStream, Shorter, Hard, Text;
    OneText(props, cap, Text(j, n), Text(k, n), m, Best(props, cap, Text(j, n), m), Best(props, cap, Text(k, n), m));
    TextOnce(j, k, n);
  }

  /**
   There are more texts of n bytes than streams of fewer bytes, and a stream says only one of them: some text does not get
   shorter by a single byte, however its operations are chosen.
   */
  lemma SomeHard(props: Props, cap: nat, n: nat) returns (text: seq<Byte>)
    requires PropsOk(props) && 1 <= cap <= EOS_DIST && n >= 1
    ensures |text| == n && Hard(props, cap, text, n - 1)
  {
    hide Pow2, Hard, Text, Stream, Number;
    if forall k: nat :: k < Pow2(8 * n) ==> !Hard(props, cap, Text(k, n), n - 1) {
      var codes := seq(Pow2(8 * n), k requires 0 <= k < Pow2(8 * n) => Number(Stream(props, cap, n, n - 1, k)));
      var most := 2 * Pow2(8 * (n - 1));
      forall k | 0 <= k < |codes| ensures codes[k] < most {
        NumberBound(Stream(props, cap, n, n - 1, k));
        Pow2Mono(8 * |Stream(props, cap, n, n - 1, k)|, 8 * (n - 1));
      }
      forall j, k | 0 <= j < k < |codes| ensures codes[j] != codes[k] {
        if codes[j] == codes[k] {
          NumberOnce(Stream(props, cap, n, n - 1, j), Stream(props, cap, n, n - 1, k));
          StreamOnce(props, cap, n, n - 1, j, k);
        }
      }
      Pow2Add(8, 8 * (n - 1));
      PowersToByte();
      Counting.Pigeonhole(codes, most);
      assert false;
    }
    var k: nat :| k < Pow2(8 * n) && Hard(props, cap, Text(k, n), n - 1);
    text := Text(k, n);
  }
}
