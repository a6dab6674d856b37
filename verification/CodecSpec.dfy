/**
 The value codecs of an LZMA state as functions: each encoder is the list of coded
 bits it asks the range coder for, each decoder a walk over a range decoder, and
 for each pair the decoder returns the value that was encoded.
 */
module CodecSpec {
  import opened Bits
  import opened Cells
  import opened Results
  import opened RangeSpec

  const MIN_MATCH_LEN: int := 2
  const MAX_MATCH_LEN: int := 273
  const MAX_DISTANCE: int := TWO32
  const EOS_DIST: int := 0xffff_ffff

  // ----- the arrays a state owns -----

  function TreeBits(t: Tree): nat
  {
    match t
    case LenLow(_, _) => 3
    case LenMid(_, _) => 3
    case LenHigh(_) => 8
    case PosSlot(_) => 6
    case PosModel(i) => (4 + i) / 2 - 1
    case Align => 4
  }

  predicate TreeOk(t: Tree)
  {
    match t
    case LenLow(_, ps) => ps < 16
    case LenMid(_, ps) => ps < 16
    case LenHigh(_) => true
    case PosSlot(ls) => ls < 4
    case PosModel(i) => i < 10
    case Align => true
  }

  /** The cell is inside the array it addresses, for a literal codec of 2^lclp tables. */
  predicate InArrays(c: Cell, lclp: nat)
  {
    match c
    case IsMatch(i) => i < 192
    case IsRepG0Long(i) => i < 192
    case IsRep(i) => i < 12
    case IsRepG0(i) => i < 12
    case IsRepG1(i) => i < 12
    case IsRepG2(i) => i < 12
    case Choice(_, i) => i < 2
    case Node(t, i) => TreeOk(t) && i < Pow2(TreeBits(t))
    case Lit(k, i) => k < Pow2(lclp) && i < 0x300
  }

  // ----- reading one more bit -----

  lemma FollowsCons(r: Reader, ev: Event, rest: seq<Event>)
    requires Follows(r, [ev] + rest)
    ensures Read(r, ev).Ok? && Read(r, ev).value.0 == ev.b
    ensures Follows(Read(r, ev).value.1, rest)
    ensures After(r, [ev] + rest) == After(Read(r, ev).value.1, rest)
  {
    assert ([ev] + rest)[0] == ev && ([ev] + rest)[1..] == rest;
  }

  lemma AfterNone(r: Reader)
    ensures Follows(r, []) && After(r, []) == r
  {
  }

  // ----- bit trees, most significant bit first -----

  function TreeEvents(t: Tree, m: nat, v: nat, i: nat): seq<Event>
    decreases i
  {
    if i == 0 then []
    else
      var b: Bit := Shr(v, i - 1) % 2;
      [Model(Node(t, m), b)] + TreeEvents(t, 2 * m + b, v, i - 1)
  }

  function TreeWalk(r: Reader, t: Tree, m: nat, i: nat): Result<(nat, Reader)>
    decreases i
  {
    if i == 0 then Ok((m, r))
    else
      var (b, r1) :- ReadModel(r, Node(t, m));
      TreeWalk(r1, t, 2 * m + b, i - 1)
  }

  /** `m` grows by the remaining bits of the value. */
  function TreeEnd(m: nat, v: nat, i: nat): nat { m * Pow2(i) + Low(v, i) }

  lemma TreeEndStep(m: nat, v: nat, i: nat)
    requires i > 0
    ensures TreeEnd(m, v, i) == TreeEnd(2 * m + Shr(v, i - 1) % 2, v, i - 1)
  {
    LowTop(v, i - 1);
    var p, b := Pow2(i - 1), Shr(v, i - 1) % 2;
    assert m * (2 * p) + p * b == (2 * m + b) * p;
  }

  lemma TreeEndNow(m: nat, v: nat)
    ensures TreeEnd(m, v, 0) == m
  {
  }

  lemma {:induction false} TreeWalkReads(r: Reader, t: Tree, m: nat, v: nat, i: nat)
    requires Follows(r, TreeEvents(t, m, v, i))
    ensures TreeWalk(r, t, m, i) == Ok((TreeEnd(m, v, i), After(r, TreeEvents(t, m, v, i))))
    decreases i
  {
    hide Follows, After, ReadModel, Shr, Low, TreeEnd;
    AfterNone(r);
    if i == 0 { TreeEndNow(m, v); }
    if i > 0 {
      var b: Bit := Shr(v, i - 1) % 2;
      FollowsCons(r, Model(Node(t, m), b), TreeEvents(t, 2 * m + b, v, i - 1));
      TreeWalkReads(Read(r, Model(Node(t, m), b)).value.1, t, 2 * m + b, v, i - 1);
      TreeEndStep(m, v, i);
    }
  }

  function EncodeTree(t: Tree, v: nat): seq<Event> { TreeEvents(t, 1, v, TreeBits(t)) }

  /** The walk only descends: it ends below the node it started from. */
  lemma {:induction false} TreeWalkDescends(r: Reader, t: Tree, m: nat, i: nat)
    requires TreeWalk(r, t, m, i).Ok?
    ensures Shl(m, i) <= TreeWalk(r, t, m, i).value.0 < Shl(m + 1, i)
    decreases i
  {
    hide ReadModel, Shl, Pow2;
    ShlNone(m);
    if i > 0 {
      var (b, r1) := ReadModel(r, Node(t, m)).value;
      TreeWalkDescends(r1, t, 2 * m + b, i - 1);
      ShlStep(m, b, i);
    }
  }

  lemma ShlNone(m: nat)
    ensures Shl(m, 0) == m && Shl(m + 1, 0) == m + 1
  {
  }

  lemma ShlStep(m: nat, b: Bit, i: nat)
    requires i > 0
    ensures Shl(m, i) <= Shl(2 * m + b, i - 1) && Shl(2 * m + b + 1, i - 1) <= Shl(m + 1, i)
  {
    var p := Pow2(i - 1);
    assert (2 * m) * p == m * (2 * p);
    if b == 1 { assert (2 * m + 1) * p == m * (2 * p) + p; }
    assert (2 * m + 1) * p == m * (2 * p) + p;
    assert (2 * m + 2) * p == (m + 1) * (2 * p);
  }

  function DecodeTree(r: Reader, t: Tree): (x: Result<(nat, Reader)>)
    ensures x.Ok? ==> x.value.0 < Pow2(TreeBits(t))
  {
    var (m, r1) :- TreeWalk(r, t, 1, TreeBits(t));
    TreeWalkDescends(r, t, 1, TreeBits(t));
    Ok((m - Pow2(TreeBits(t)), r1))
  }

  lemma TreeRoundTrip(r: Reader, t: Tree, v: nat)
    requires Follows(r, EncodeTree(t, v)) && v < Pow2(TreeBits(t))
    ensures DecodeTree(r, t) == Ok((v, After(r, EncodeTree(t, v))))
  {
    hide Follows, After, TreeEvents, TreeWalk, Shr, Low, Pow2;
    TreeWalkReads(r, t, 1, v, TreeBits(t));
    ShrZero(v, TreeBits(t));
  }

  // ----- bit trees, least significant bit first -----

  function ReverseEvents(t: Tree, m: nat, v: nat, j: nat, bits: nat): seq<Event>
    requires j <= bits
    decreases bits - j
  {
    if j == bits then []
    else
      var b: Bit := Shr(v, j) % 2;
      [Model(Node(t, m), b)] + ReverseEvents(t, 2 * m + b, v, j + 1, bits)
  }

  function ReverseWalk(r: Reader, t: Tree, m: nat, acc: nat, j: nat, bits: nat): Result<(nat, Reader)>
    requires j <= bits
    decreases bits - j
  {
    if j == bits then Ok((acc, r))
    else
      var (b, r1) :- ReadModel(r, Node(t, m));
      ReverseWalk(r1, t, 2 * m + b, acc + b * Pow2(j), j + 1, bits)
  }

  lemma {:induction false} ReverseWalkReads(r: Reader, t: Tree, m: nat, v: nat, j: nat, bits: nat)
    requires j <= bits && Follows(r, ReverseEvents(t, m, v, j, bits))
    ensures ReverseWalk(r, t, m, Low(v, j), j, bits) == Ok((Low(v, bits), After(r, ReverseEvents(t, m, v, j, bits))))
    decreases bits - j
  {
    hide Follows, After, ReadModel, Pow2, Shr, Low;
    AfterNone(r);
    if j < bits {
      var b: Bit := Shr(v, j) % 2;
      FollowsCons(r, Model(Node(t, m), b), ReverseEvents(t, 2 * m + b, v, j + 1, bits));
      LowTop(v, j);
      assert Pow2(j) * b == b * Pow2(j);
      ReverseWalkReads(Read(r, Model(Node(t, m), b)).value.1, t, 2 * m + b, v, j + 1, bits);
    }
  }

  function EncodeReverse(t: Tree, v: nat): seq<Event> { ReverseEvents(t, 1, v, 0, TreeBits(t)) }

  function DecodeReverse(r: Reader, t: Tree): Result<(nat, Reader)> { ReverseWalk(r, t, 1, 0, 0, TreeBits(t)) }

  lemma ReverseRoundTrip(r: Reader, t: Tree, v: nat)
    requires Follows(r, EncodeReverse(t, v))
    ensures DecodeReverse(r, t) == Ok((Low(v, TreeBits(t)), After(r, EncodeReverse(t, v))))
  {
    ReverseWalkReads(r, t, 1, v, 0, TreeBits(t));
  }

  // ----- direct bits -----

  function EncodeDirect(v: nat, i: nat): seq<Event>
    decreases i
  {
    if i == 0 then [] else [Direct(Shr(v, i - 1) % 2)] + EncodeDirect(v, i - 1)
  }

  function DecodeDirect(r: Reader, acc: nat, i: nat): Result<(nat, Reader)>
    decreases i
  {
    if i == 0 then Ok((acc, r))
    else
      var (b, r1) :- ReadDirect(r);
      DecodeDirect(r1, 2 * acc + b, i - 1)
  }

  lemma {:induction false} DirectRoundTrip(r: Reader, acc: nat, v: nat, i: nat)
    requires Follows(r, EncodeDirect(v, i))
    ensures DecodeDirect(r, acc, i) == Ok((TreeEnd(acc, v, i), After(r, EncodeDirect(v, i))))
    decreases i
  {
    if i > 0 {
      var b: Bit := Shr(v, i - 1) % 2;
      FollowsCons(r, Direct(b), EncodeDirect(v, i - 1));
      DirectRoundTrip(Read(r, Direct(b)).value.1, 2 * acc + b, v, i - 1);
      TreeEndStep(acc, v, i);
    }
  }

  // ----- lengths -----

  function EncodeLen(rep: bool, l: nat, posState: nat): seq<Event>
  {
    if l < 8 then
      [Model(Choice(rep, 0), 0)] + EncodeTree(LenLow(rep, posState), l)
    else if l < 16 then
      [Model(Choice(rep, 0), 1)] + ([Model(Choice(rep, 1), 0)] + EncodeTree(LenMid(rep, posState), l - 8))
    else
      [Model(Choice(rep, 0), 1)] + ([Model(Choice(rep, 1), 1)] + EncodeTree(LenHigh(rep), l - 16))
  }

  function DecodeLen(r: Reader, rep: bool, posState: nat): Result<(nat, Reader)>
  {
    var (b0, r0) :- ReadModel(r, Choice(rep, 0));
    if b0 == 0 then DecodeTree(r0, LenLow(rep, posState))
    else
      var (b1, r1) :- ReadModel(r0, Choice(rep, 1));
      if b1 == 0 then
        var (l, r2) :- DecodeTree(r1, LenMid(rep, posState));
        Ok((l + 8, r2))
      else
        var (l, r2) :- DecodeTree(r1, LenHigh(rep));
        Ok((l + 16, r2))
  }

  lemma LenRoundTrip(r: Reader, rep: bool, l: nat, posState: nat)
    requires l <= MAX_MATCH_LEN - MIN_MATCH_LEN && Follows(r, EncodeLen(rep, l, posState))
    ensures DecodeLen(r, rep, posState) == Ok((l, After(r, EncodeLen(rep, l, posState))))
  {
    hide ReadModel, Follows, After, DecodeTree, EncodeTree;
    assert Pow2(3) == 8 && Pow2(8) == 256;
    var c0, c1 := Choice(rep, 0), Choice(rep, 1);
    if l < 8 {
      FollowsCons(r, Model(c0, 0), EncodeTree(LenLow(rep, posState), l));
      TreeRoundTrip(Read(r, Model(c0, 0)).value.1, LenLow(rep, posState), l);
    } else {
      var b1: Bit := if l < 16 then 0 else 1;
      var tail := if l < 16 then EncodeTree(LenMid(rep, posState), l - 8) else EncodeTree(LenHigh(rep), l - 16);
      FollowsCons(r, Model(c0, 1), [Model(c1, b1)] + tail);
      var r0 := Read(r, Model(c0, 1)).value.1;
      FollowsCons(r0, Model(c1, b1), tail);
      var r1 := Read(r0, Model(c1, b1)).value.1;
      if l < 16 { TreeRoundTrip(r1, LenMid(rep, posState), l - 8); }
      else { TreeRoundTrip(r1, LenHigh(rep), l - 16); }
    }
  }

  // ----- distances -----

  function LenState(l: nat): nat { if l >= 4 then 3 else l }

  function DistBits(dist: nat): nat
    requires dist >= 4
  {
    assert BitLen(dist) == 2 + BitLen(dist / 2 / 2);
    BitLen(dist) - 2
  }

  function SlotOf(dist: nat): nat
  {
    if dist < 4 then dist else 2 + 2 * DistBits(dist) + Shr(dist, DistBits(dist)) % 2
  }

  lemma SlotOk(dist: nat)
    requires 4 <= dist < TWO32
    ensures 1 <= DistBits(dist) <= 30
    ensures Shr(dist, DistBits(dist)) == 2 + Shr(dist, DistBits(dist)) % 2
    ensures SlotOf(dist) / 2 - 1 == DistBits(dist) && SlotOf(dist) % 2 == Shr(dist, DistBits(dist)) % 2
    ensures 4 <= SlotOf(dist) < 64
  {
    hide Pow2, Low;
    BitLenTop(dist);
    BitLenFour(dist);
    Pow2Word();
    BitLenBound(dist, 32);
    assert Shr(dist, DistBits(dist) + 1) == 1;
  }

  lemma Pow2Word()
    ensures Pow2(32) == TWO32
  {
    assert Pow2(8) == 256;
    Pow2Add(8, 8);
    Pow2Add(16, 16);
  }

  function EncodeDist(dist: nat, l: nat): seq<Event>
  {
    var slot := SlotOf(dist);
    EncodeTree(PosSlot(LenState(l)), slot) + DistTail(dist, slot)
  }

  function DistTail(dist: nat, slot: nat): seq<Event>
  {
    if slot < 4 then []
    else if slot < 14 then EncodeReverse(PosModel(slot - 4), dist)
    else EncodeAligned(dist, slot / 2 - 1)
  }

  /** The low `bits` bits: all but four as direct bits, the last four with their own tree. */
  function EncodeAligned(dist: nat, bits: nat): seq<Event>
    requires bits >= 4
  {
    EncodeDirect(Shr(dist, 4), bits - 4) + EncodeReverse(Align, dist)
  }

  function DecodeAligned(r: Reader, bits: nat): Result<(nat, Reader)>
    requires bits >= 4
  {
    var (u, r1) :- DecodeDirect(r, 0, bits - 4);
    var (a, r2) :- DecodeReverse(r1, Align);
    Ok((16 * u + a, r2))
  }

  lemma AlignedRoundTrip(r: Reader, dist: nat, bits: nat)
    requires bits >= 4 && Follows(r, EncodeAligned(dist, bits))
    ensures DecodeAligned(r, bits) == Ok((Low(dist, bits), After(r, EncodeAligned(dist, bits))))
  {
    hide Shr, Shl, Low, Pow2, Follows, After, ReadModel, ReadDirect, EncodeReverse, DecodeReverse, EncodeDirect, DecodeDirect, TreeEnd;
    var direct, aligned := EncodeDirect(Shr(dist, 4), bits - 4), EncodeReverse(Align, dist);
    AlignedLow(dist, bits);
    FollowsConcat(r, direct, aligned);
    DirectRoundTrip(r, 0, Shr(dist, 4), bits - 4);
    ReverseRoundTrip(After(r, direct), Align, dist);
  }

  function DecodeDist(r: Reader, l: nat): Result<(nat, Reader)>
  {
    var (slot, r0) :- DecodeTree(r, PosSlot(LenState(l)));
    if slot < 4 then Ok((slot, r0)) else DecodeTail(r0, slot)
  }

  function DecodeTail(r: Reader, slot: nat): Result<(nat, Reader)>
    requires slot >= 4
  {
    var bits := slot / 2 - 1;
    var (u, r1) :- if slot < 14 then DecodeReverse(r, PosModel(slot - 4)) else DecodeAligned(r, bits);
    Ok((Shl(2 + slot % 2, bits) + u, r1))
  }

  lemma TailRoundTrip(r: Reader, dist: nat, slot: nat)
    requires 4 <= dist < TWO32 && slot == SlotOf(dist) && Follows(r, DistTail(dist, slot))
    ensures slot >= 4 && DecodeTail(r, slot) == Ok((dist, After(r, DistTail(dist, slot))))
  {
    hide ReadModel, ReadDirect, Follows, After, EncodeReverse, DecodeReverse, EncodeAligned, DecodeAligned, SlotOf, DistBits, Shr, Shl, Low, Pow2, BitLen;
    SlotParts(dist, slot);
    if slot < 14 { ReverseRoundTrip(r, PosModel(slot - 4), dist); } else { AlignedRoundTrip(r, dist, slot / 2 - 1); }
  }

  lemma SlotParts(dist: nat, slot: nat)
    requires 4 <= dist < TWO32 && slot == SlotOf(dist)
    ensures slot >= 4 && Shl(2 + slot % 2, slot / 2 - 1) + Low(dist, slot / 2 - 1) == dist
  {
    SlotOk(dist);
    ShrLow(dist, DistBits(dist));
  }

  lemma AlignedLow(dist: nat, bits: nat)
    requires bits >= 4
    ensures Low(dist, bits) == Low(dist, 4) + 16 * Low(Shr(dist, 4), bits - 4)
    ensures TreeEnd(0, Shr(dist, 4), bits - 4) == Low(Shr(dist, 4), bits - 4)
  {
    LowSplit(dist, 4, bits - 4);
    assert Pow2(4) == 16;
  }

  lemma DistRoundTrip(r: Reader, dist: nat, l: nat)
    requires dist < TWO32 && Follows(r, EncodeDist(dist, l))
    ensures DecodeDist(r, l) == Ok((dist, After(r, EncodeDist(dist, l))))
  {
    var slot := SlotOf(dist);
    assert dist < 4 ==> slot == dist;
    assert Pow2(6) == 64;
    if dist >= 4 { SlotOk(dist); }
    var tail := DistTail(dist, slot);
    assert slot < 4 ==> tail == [];
    hide Follows, After, DecodeTree, EncodeTree, SlotOf, Shr, Low, DistTail, DecodeTail;
    var slotEvents := EncodeTree(PosSlot(LenState(l)), slot);
    FollowsConcat(r, slotEvents, tail);
    TreeRoundTrip(r, PosSlot(LenState(l)), slot);
    if slot >= 4 { TailRoundTrip(After(r, slotEvents), dist, slot); }
    else { AfterNone(After(r, slotEvents)); }
  }

  // ----- literals -----

  function PlainLiteral(k: nat, symbol: nat, r: nat): seq<Event>
    requires symbol >= 1
    decreases 256 - symbol
  {
    if symbol >= 256 then []
    else
      var bit: Bit := r / 128 % 2;
      [Model(Lit(k, symbol), bit)] + PlainLiteral(k, 2 * symbol + bit, 2 * r)
  }

  function MatchedLiteral(k: nat, symbol: nat, r: nat, m: nat): seq<Event>
    requires symbol >= 1
    decreases 256 - symbol
  {
    if symbol >= 256 then []
    else
      var matchBit := m / 128 % 2;
      var bit: Bit := r / 128 % 2;
      [Model(Lit(k, (1 + matchBit) * 256 + symbol), bit)] +
      if matchBit != bit then PlainLiteral(k, 2 * symbol + bit, 2 * r)
      else MatchedLiteral(k, 2 * symbol + bit, 2 * r, 2 * m)
  }

  function EncodeLiteral(s: Byte, state: nat, matchByte: Byte, k: nat): seq<Event>
  {
    if state >= 7 then MatchedLiteral(k, 1, s, matchByte) else PlainLiteral(k, 1, s)
  }

  function PlainWalk(d: Reader, k: nat, symbol: nat): Result<(nat, Reader)>
    requires symbol >= 1
    decreases 256 - symbol
  {
    if symbol >= 256 then Ok((symbol, d))
    else
      var (bit, d1) :- ReadModel(d, Lit(k, symbol));
      PlainWalk(d1, k, 2 * symbol + bit)
  }

  function MatchedWalk(d: Reader, k: nat, symbol: nat, m: nat): Result<(nat, Reader)>
    requires symbol >= 1
    decreases 256 - symbol
  {
    if symbol >= 256 then Ok((symbol, d))
    else
      var matchBit := m / 128 % 2;
      var (bit, d1) :- ReadModel(d, Lit(k, (1 + matchBit) * 256 + symbol));
      if matchBit != bit then PlainWalk(d1, k, 2 * symbol + bit)
      else MatchedWalk(d1, k, 2 * symbol + bit, 2 * m)
  }

  function DecodeLiteral(d: Reader, state: nat, matchByte: Byte, k: nat): Result<(Byte, Reader)>
  {
    var (symbol, d1) :- if state >= 7 then MatchedWalk(d, k, 1, matchByte) else PlainWalk(d, k, 1);
    Ok((symbol % 256, d1))
  }

  function LastSymbol(symbol: nat, r: nat): nat
    requires symbol >= 1
    decreases 256 - symbol
  {
    if symbol >= 256 then symbol else LastSymbol(2 * symbol + r / 128 % 2, 2 * r)
  }

  lemma {:induction false} PlainWalkReads(d: Reader, k: nat, symbol: nat, r: nat)
    requires symbol >= 1 && Follows(d, PlainLiteral(k, symbol, r))
    ensures PlainWalk(d, k, symbol) == Ok((LastSymbol(symbol, r), After(d, PlainLiteral(k, symbol, r))))
    decreases 256 - symbol
  {
    hide Follows, After, ReadModel;
    AfterNone(d);
    if symbol < 256 {
      var bit: Bit := r / 128 % 2;
      FollowsCons(d, Model(Lit(k, symbol), bit), PlainLiteral(k, 2 * symbol + bit, 2 * r));
      PlainWalkReads(Read(d, Model(Lit(k, symbol), bit)).value.1, k, 2 * symbol + bit, 2 * r);
    }
  }

  lemma {:induction false} MatchedWalkReads(d: Reader, k: nat, symbol: nat, r: nat, m: nat)
    requires symbol >= 1 && Follows(d, MatchedLiteral(k, symbol, r, m))
    ensures MatchedWalk(d, k, symbol, m) == Ok((LastSymbol(symbol, r), After(d, MatchedLiteral(k, symbol, r, m))))
    decreases 256 - symbol
  {
    hide Follows, After, ReadModel, PlainWalk, PlainLiteral;
    AfterNone(d);
    if symbol < 256 {
      var matchBit := m / 128 % 2;
      var bit: Bit := r / 128 % 2;
      var ev := Model(Lit(k, (1 + matchBit) * 256 + symbol), bit);
      var next := 2 * symbol + bit;
      FollowsCons(d, ev, if matchBit != bit then PlainLiteral(k, next, 2 * r) else MatchedLiteral(k, next, 2 * r, 2 * m));
      var d1 := Read(d, ev).value.1;
      if matchBit != bit { PlainWalkReads(d1, k, next, 2 * r); }
      else { MatchedWalkReads(d1, k, next, 2 * r, 2 * m); }
    }
  }

  /** With n bits to go the symbol holds the other bits of s below a leading 1, and r holds s shifted as far. */
  lemma {:induction false} LastSymbolFrom(s: nat, n: nat)
    requires n <= 8 && s < 256
    ensures LastSymbol(Pow2(8 - n) + Shr(s, n), s * Pow2(8 - n)) == 256 + s
    decreases n
  {
    hide Pow2, Shr;
    PowersToByte();
    if n == 0 {
      ShrNone(s);
    } else {
      ShiftedBit(s, n);
      ShiftStep(s, n);
      var symbol, r := Pow2(8 - n) + Shr(s, n), s * Pow2(8 - n);
      MulDouble(s, Pow2(8 - n));
      assert 2 * symbol + r / 128 % 2 == Pow2(8 - (n - 1)) + Shr(s, n - 1);
      LastSymbolFrom(s, n - 1);
    }
  }

  lemma ShrNone(s: nat)
    ensures Shr(s, 0) == s
  {
  }

  lemma ShiftStep(s: nat, n: nat)
    requires 1 <= n <= 8 && s < 256
    ensures Pow2(8 - (n - 1)) == 2 * Pow2(8 - n) && Shr(s, n) == Shr(s, n - 1) / 2
    ensures Pow2(8 - n) + Shr(s, n) < 256
  {
    ShrAtMost(s, n - 1);
    Pow2Mono(8 - n, 7);
    PowersToByte();
  }

  lemma ShrAtMost(s: nat, n: nat)
    ensures Shr(s, n) <= s
    decreases n
  {
    if n > 0 { ShrAtMost(s, n - 1); }
  }

  lemma ShiftedBit(s: nat, n: nat)
    requires 1 <= n <= 8
    ensures s * Pow2(8 - n) / 128 % 2 == Shr(s, n - 1) % 2
  {
    var p, q, a, c := Pow2(n - 1), Pow2(8 - n), Shr(s, n - 1), Low(s, n - 1);
    ShrLow(s, n - 1);
    assert p * q == 128 by { Pow2Add(n - 1, 8 - n); assert Pow2(7) == 128; }
    ScaledQuotient(s, a, p, c, q);
  }

  lemma ScaledQuotient(s: nat, a: nat, p: nat, c: nat, q: nat)
    requires s == a * p + c && c < p && p * q == 128
    ensures s * q / 128 == a
  {
    assert s * q == a * (p * q) + c * q;
    assert c * q + q <= p * q by { assert (c + 1) * q <= p * q; }
    assert q >= 1;
    DivIs(s * q, a, c * q);
  }

  lemma DivIs(x: nat, q: nat, lo: nat)
    requires x == 128 * q + lo && lo < 128
    ensures x / 128 == q
  {
  }

  /** Eight steps move the eight bits of a byte into the symbol. */
  lemma LastSymbolByte(s: Byte)
    ensures LastSymbol(1, s) == 256 + s
  {
    hide LastSymbol, Pow2, Shr, Low;
    PowersToByte();
    ShrZero(s, 8);
    LastSymbolFrom(s, 8);
  }

  lemma LiteralRoundTrip(d: Reader, s: Byte, state: nat, matchByte: Byte, k: nat)
    requires Follows(d, EncodeLiteral(s, state, matchByte, k))
    ensures DecodeLiteral(d, state, matchByte, k) == Ok((s, After(d, EncodeLiteral(s, state, matchByte, k))))
  {
    hide Follows, After, LastSymbol, PlainWalk, MatchedWalk, PlainLiteral, MatchedLiteral;
    if state >= 7 { MatchedWalkReads(d, k, 1, s, matchByte); } else { PlainWalkReads(d, k, 1, s); }
    LastSymbolByte(s);
  }
}
