/** The coded bits of a value one by one: which bit of the value each is, and which cell it is coded in. */
module CodecFacts {
  import opened Bits
  import opened Cells
  import opened RangeSpec
  import opened CodecSpec
  import LzmaSize
  import FseCoding

  // ----- trees -----

  /** The node at depth j that all but the lowest i bits lead to. */
  function Led(v: nat, i: nat, j: nat): nat { Pow2(j) + Shr(v, i) }

  /** A tree is coded from the highest bit down, each in the node that the bits before it lead to. */
  lemma TreeEventAt(t: Tree, v: nat, k: nat)
    requires k < TreeBits(t) && v < Pow2(TreeBits(t))
    ensures |EncodeTree(t, v)| == TreeBits(t)
    ensures EncodeTree(t, v)[k] == Model(Node(t, Pow2(k) + Shr(v, TreeBits(t) - k)), Shr(v, TreeBits(t) - 1 - k) % 2)
  {
    hide Shr, TreeEvents;
    var n := TreeBits(t);
    ShrZero(v, n);
    TreeEventFrom(t, v, n, 0, k);
  }

  lemma {:induction false} TreeEventFrom(t: Tree, v: nat, n: nat, j: nat, k: nat)
    requires j <= k < n
    ensures |TreeEvents(t, Led(v, n - j, j), v, n - j)| == n - j
    ensures TreeEvents(t, Led(v, n - j, j), v, n - j)[k - j] == Model(Node(t, Led(v, n - k, k)), Shr(v, n - 1 - k) % 2)
    decreases n - j
  {
    hide Shr, Led;
    LzmaSize.TreeSize(t, Led(v, n - j, j), v, n - j);
    LedOn(v, n - j - 1, j);
    if j < k { TreeEventFrom(t, v, n, j + 1, k); }
  }

  lemma LedOn(v: nat, i: nat, j: nat)
    ensures 2 * Led(v, i + 1, j) + Shr(v, i) % 2 == Led(v, i, j + 1)
  {
    NextNode(v, i);
  }

  lemma NextNode(v: nat, i: nat)
    ensures Shr(v, i) == 2 * Shr(v, i + 1) + Shr(v, i) % 2
  {
  }

  /** A reverse tree is coded from the lowest bit up. */
  lemma ReverseEventAt(t: Tree, v: nat, k: nat)
    requires k < TreeBits(t)
    ensures |EncodeReverse(t, v)| == TreeBits(t)
    ensures EncodeReverse(t, v)[k].Model? && EncodeReverse(t, v)[k].b == Shr(v, k) % 2
    ensures EncodeReverse(t, v)[k].c == Node(t, Flipped(v, k))
  {
    hide Shr, Pow2;
    LzmaSize.ReverseSize(t, 1, v, 0, TreeBits(t));
    ReverseEventFrom(t, v, 0, k, TreeBits(t));
  }

  /** The low k bits of v in reverse, below a leading one. */
  function Flipped(v: nat, k: nat): nat { if k == 0 then 1 else 2 * Flipped(v, k - 1) + Shr(v, k - 1) % 2 }

  lemma {:induction false} ReverseEventFrom(t: Tree, v: nat, j: nat, k: nat, bits: nat)
    requires j <= k < bits
    ensures |ReverseEvents(t, Flipped(v, j), v, j, bits)| == bits - j
    ensures ReverseEvents(t, Flipped(v, j), v, j, bits)[k - j] == Model(Node(t, Flipped(v, k)), Shr(v, k) % 2)
    decreases bits - j
  {
    hide Shr;
    LzmaSize.ReverseSize(t, Flipped(v, j), v, j, bits);
    if j < k { ReverseEventFrom(t, v, j + 1, k, bits); }
  }

  lemma {:induction false} DirectEventAt(v: nat, n: nat, k: nat)
    requires k < n
    ensures |EncodeDirect(v, n)| == n && EncodeDirect(v, n)[k] == Direct(Shr(v, n - 1 - k) % 2)
    decreases n
  {
    hide Shr;
    LzmaSize.DirectSize(v, n);
    if k > 0 { DirectEventAt(v, n - 1, k - 1); }
  }

  // ----- lengths -----

  /**
   Lengths from 0 on: eight short ones in a tree for the position, eight more in another behind a second choice, and the rest
   in one tree for all positions.
   */
  lemma LenEvents(rep: bool, l: nat, posState: nat, k: nat)
    requires l <= 271
    ensures var e := EncodeLen(rep, l, posState);
            if l < 8 then
              |e| == 4 && e[0] == Model(Choice(rep, 0), 0) &&
              (k < 3 ==> e[1 + k] == Model(Node(LenLow(rep, posState), Pow2(k) + Shr(l, 3 - k)), Shr(l, 2 - k) % 2))
            else if l < 16 then
              |e| == 5 && e[0] == Model(Choice(rep, 0), 1) && e[1] == Model(Choice(rep, 1), 0) &&
              (k < 3 ==> e[2 + k] == Model(Node(LenMid(rep, posState), Pow2(k) + Shr(l - 8, 3 - k)), Shr(l - 8, 2 - k) % 2))
            else
              |e| == 10 && e[0] == Model(Choice(rep, 0), 1) && e[1] == Model(Choice(rep, 1), 1) &&
              (k < 8 ==> e[2 + k] == Model(Node(LenHigh(rep), Pow2(k) + Shr(l - 16, 8 - k)), Shr(l - 16, 7 - k) % 2))
  {
    hide Shr, EncodeTree, Pow2;
    ThreeBits();
    LzmaSize.LenSize(rep, l, posState);
    if l < 8 { if k < 3 { TreeEventAt(LenLow(rep, posState), l, k); } }
    else if l < 16 { if k < 3 { TreeEventAt(LenMid(rep, posState), l - 8, k); } }
    else if k < 8 { TreeEventAt(LenHigh(rep), l - 16, k); }
  }

  lemma ThreeBits()
    ensures Pow2(3) == 8 && Pow2(6) == 64 && Pow2(8) == 256
  {
  }

  // ----- distances -----

  /** Slots for two lengths are coded in the same tree exactly when the lengths are equal or both at least three. */
  lemma SlotTreeShared(dist: nat, l: nat, dist': nat, l': nat)
    requires dist < TWO32 && dist' < TWO32
    ensures EncodeDist(dist, l) != [] && EncodeDist(dist', l') != []
    ensures EncodeDist(dist, l)[0].Model? && EncodeDist(dist', l')[0].Model?
    ensures EncodeDist(dist, l)[0].c == EncodeDist(dist', l')[0].c <==> l == l' || (l >= 3 && l' >= 3)
  {
  }

  /** A slot names the position of the highest bit and the bit below it. */
  lemma SlotIs(dist: nat, k: nat)
    requires 1 <= k && Pow2(k) <= dist < 2 * Pow2(k)
    ensures SlotOf(dist) == 2 * k + dist / Pow2(k - 1) % 2
  {
    hide Pow2, BitLen, Shr, Low;
    FseCoding.BitLenIs(dist, k);
    Pow2Next(k - 1);
    ShrQuotient(dist, k - 1);
    SmallSlots();
    if k == 1 {
      PowersToByte();
      Pow2Next(0);
    } else {
      Pow2Mono(2, k);
    }
  }

  lemma SmallSlots()
    ensures Pow2(2) == 4 && SlotOf(0) == 0 && SlotOf(1) == 1 && SlotOf(2) == 2 && SlotOf(3) == 3
  {
  }

  lemma ShrQuotient(x: nat, n: nat)
    ensures Shr(x, n) == x / Pow2(n)
  {
    hide Pow2, Shr, Low;
    ShrLow(x, n);
    var p := Pow2(n);
    SameQuotient(Shr(x, n), Low(x, n), x / p, x % p, p);
  }

  /**
   The bits below those two: up to 127 all of them in a reverse tree of the slot; from 128 on the lowest four in a reverse tree
   for all slots, and the others directly, highest first.
   */
  lemma DistEvents(dist: nat, l: nat, k: nat, j: nat)
    requires dist < TWO32 && 1 <= k && Pow2(k) <= dist < 2 * Pow2(k) && j < k - 1
    ensures var e := EncodeDist(dist, l);
            && |e| == 6 + (k - 1)
            && if k < 7 then
                 e[6 + j] == Model(Node(PosModel(SlotOf(dist) - 4), Flipped(dist, j)), Shr(dist, j) % 2)
               else if j < k - 5 then
                 e[6 + j] == Direct(Shr(dist, k - 2 - j) % 2)
               else
                 e[6 + j] == Model(Node(Align, Flipped(dist, j - (k - 5))), Shr(dist, j - (k - 5)) % 2)
  {
    hide Pow2, Shr, EncodeTree, EncodeDirect, EncodeReverse, SlotOf, Flipped;
    SlotIs(dist, k);
    var slot := SlotOf(dist);
    SlotFits(dist, k, slot);
    TreeEventAt(PosSlot(LenState(l)), slot, 0);
    if k < 7 {
      ReverseEventAt(PosModel(slot - 4), dist, j);
    } else {
      ReverseEventAt(Align, dist, if j < k - 5 then 0 else j - (k - 5));
      if j < k - 5 { DirectEventAt(Shr(dist, 4), k - 5, j); ShrAdd(dist, 4, k - 6 - j); }
      else if k > 5 { DirectEventAt(Shr(dist, 4), k - 5, 0); }
    }
  }

  lemma SlotFits(dist: nat, k: nat, slot: nat)
    requires dist < TWO32 && 2 <= k && Pow2(k) <= dist && 2 * k <= slot <= 2 * k + 1
    ensures slot < Pow2(6) && (k < 7 <==> slot < 14) && slot / 2 - 1 == k - 1 && TreeBits(PosModel(slot - 4)) == k - 1
  {
    hide Pow2;
    ThreeBits();
    Pow2Word();
    if k >= 32 { Pow2Mono(32, k); }
  }

  // ----- literals -----

  /** The node for bit i of a literal, counted from the top, where the bits before it agree with those of the match byte. */
  function MatchNode(m: Byte, i: nat): nat
    requires i < 8
  {
    256 + 256 * (Shr(m, 7 - i) % 2)
  }

  /** The node that all but the lowest n bits of a byte lead to. */
  function Reached(s: Byte, n: nat): nat
    requires n <= 8
  {
    Pow2(8 - n) + Shr(s, n)
  }

  /** The byte shifted so far that bit n - 1 is at the top. */
  function Shifted(s: Byte, n: nat): nat
    requires n <= 8
  {
    s * Pow2(8 - n)
  }

  /**
   A literal is coded from its highest bit down, in the node its bits so far lead to. Where a match byte is used and agrees in
   all bits so far, the node is one of two others, told apart by its next bit.
   */
  lemma LiteralEventAt(s: Byte, state: nat, matchByte: Byte, k: nat, i: nat)
    requires i < 8
    ensures var e := EncodeLiteral(s, state, matchByte, k);
            var node := Pow2(i) + Shr(s, 8 - i);
            && |e| == 8
            && e[i] == Model(Lit(k, if state >= 7 && Shr(s, 8 - i) == Shr(matchByte, 8 - i) then MatchNode(matchByte, i) + node else node),
                             Shr(s, 7 - i) % 2)
  {
    hide Shr, PlainLiteral, MatchedLiteral, MatchNode;
    ReachedFirst(s);
    ReachedFirst(matchByte);
    if state >= 7 { MatchedEventFrom(k, s, matchByte, 8, i); } else { PlainEventFrom(k, s, 8, i); }
  }

  lemma ReachedFirst(s: Byte)
    ensures Reached(s, 8) == 1 && Shifted(s, 8) == s && Shr(s, 8) == 0
  {
    hide Shr;
    PowersToByte();
    ShrZero(s, 8);
  }

  /** One bit of a byte: taken from the top, and moved to the end of those before it. */
  lemma NextBit(s: Byte, n: nat)
    requires n <= 8
    ensures Reached(s, n) >= 1 && (n == 0 ==> Reached(s, n) >= 256)
    ensures n >= 1 ==> Reached(s, n) < 256 && Shifted(s, n) / 128 % 2 == Shr(s, n - 1) % 2
    ensures n >= 1 ==> 2 * Reached(s, n) + Shr(s, n - 1) % 2 == Reached(s, n - 1) && 2 * Shifted(s, n) == Shifted(s, n - 1)
  {
    hide Pow2, Shr;
    PowersToByte();
    if n >= 1 {
      ShiftedBit(s, n);
      ShiftStep(s, n);
      MulDouble(s, Pow2(8 - n));
      NextNode(s, n - 1);
    }
  }

  lemma {:induction false} PlainEventFrom(k: nat, s: Byte, n: nat, i: nat)
    requires n <= 8 && 8 - n <= i <= 8
    ensures Reached(s, n) >= 1
    ensures var e := PlainLiteral(k, Reached(s, n), Shifted(s, n));
            |e| == n && (i < 8 ==> e[i - (8 - n)] == Model(Lit(k, Reached(s, 8 - i)), Shr(s, 7 - i) % 2))
    decreases n
  {
    hide Reached, Shifted, Shr;
    NextBit(s, n);
    if n > 0 { PlainEventFrom(k, s, n - 1, if i == 8 - n then 8 else i); }
  }

  lemma {:induction false} MatchedEventFrom(k: nat, s: Byte, m: Byte, n: nat, i: nat)
    requires n <= 8 && 8 - n <= i <= 8 && Shr(s, n) == Shr(m, n)
    ensures Reached(s, n) >= 1
    ensures var e := MatchedLiteral(k, Reached(s, n), Shifted(s, n), Shifted(m, n));
            |e| == n &&
            (i < 8 ==> e[i - (8 - n)] == Model(Lit(k, if Shr(s, 8 - i) == Shr(m, 8 - i) then MatchNode(m, i) + Reached(s, 8 - i) else Reached(s, 8 - i)),
                                               Shr(s, 7 - i) % 2))
    decreases n
  {
    hide Reached, Shifted, Shr, PlainLiteral;
    NextBit(s, n);
    NextBit(m, n);
    if n > 0 {
      var next := if i == 8 - n then 8 else i;
      NextNode(s, n - 1);
      NextNode(m, n - 1);
      if Shr(s, n - 1) % 2 == Shr(m, n - 1) % 2 {
        MatchedEventFrom(k, s, m, n - 1, next);
      } else {
        PlainEventFrom(k, s, n - 1, next);
        if i > 8 - n { StaysApart(s, m, n - 1, 8 - i); }
      }
    }
  }

  /** Bytes that differ in their high bits differ for good. */
  lemma {:induction false} StaysApart(s: nat, m: nat, n: nat, a: nat)
    requires a <= n && Shr(s, n) != Shr(m, n)
    ensures Shr(s, a) != Shr(m, a)
    decreases n - a
  {
    if a < n { StaysApart(s, m, n, a + 1); }
  }
}
