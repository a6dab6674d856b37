/** Reading the header of FSE counts through a 32-bit window on the bytes. */
module FseCountReader {
  import opened Bits
  import opened Results
  import opened BitStream
  import opened FseSpread
  import opened FseCount

  // ----- what the window shows -----

  lemma WindowBits(data: seq<Byte>, off: nat, c: nat, n: nat)
    requires off + 4 <= |data| && c + n <= 32
    ensures BitsOf(Shr(Little(data[off..off + 4]), c), n) == BytesBits(data)[8 * off + c..8 * off + c + n]
  {
    hide Pow2, BitsOf, BytesBits, Shr;
    var w := data[off..off + 4];
    LittleBits(w);
    BitsConcat(Little(w), c, 32 - c);
    BitsConcat(Shr(Little(w), c), n, 32 - c - n);
    assert data == data[..off] + w + data[off + 4..];
    BytesConcat(data[..off] + w, data[off + 4..]);
    BytesConcat(data[..off], w);
    var all := BytesBits(data);
    assert all[8 * off..8 * off + 32] == BytesBits(w);
    assert all[8 * off + c..8 * off + c + n] == BytesBits(w)[c..c + n];
  }

  /** How many pairs of ones come first. */
  function OnePairs(x: nat): nat
  {
    if x % 4 == 3 then 1 + OnePairs(x / 4) else 0
  }

  lemma {:induction false} OnePairsOnes(x: nat, k: nat)
    ensures OnePairs(x) >= k <==> Low(x, 2 * k) == Pow2(2 * k) - 1
    decreases k
  {
    if k > 0 {
      OnePairsOnes(x / 4, k - 1);
      var p := Pow2(2 * k - 2);
      assert Pow2(2 * k) == 2 * Pow2(2 * k - 1) && Pow2(2 * k - 1) == 2 * p;
      assert Low(x, 2 * k) == x % 2 + 2 * Low(x / 2, 2 * k - 1);
      assert Low(x / 2, 2 * k - 1) == x / 2 % 2 + 2 * Low(x / 2 / 2, 2 * k - 2);
      assert x / 2 / 2 == x / 4;
      ShrLow(x / 4, 2 * k - 2);
      FourParts(x, Low(x / 4, 2 * k - 2), p);
    } else {
      assert Low(x, 0) == 0 && Pow2(0) == 1;
    }
  }

  lemma FourParts(x: nat, l: nat, p: nat)
    requires l < p
    ensures x % 2 + 2 * (x / 2 % 2 + 2 * l) == 4 * p - 1 <==> x % 4 == 3 && l == p - 1
  {
  }

  // ----- reading one count -----

  /** The count in the low bits of x, and how many bits it takes. */
  function FieldValue(x: nat, rem: nat, threshold: nat, nb: nat): (r: (nat, nat))
    requires 2 <= threshold <= rem < 2 * threshold && nb >= 1 && threshold == Pow2(nb - 1)
    ensures r.0 <= rem && nb - 1 <= r.1 <= nb
  {
    var max := 2 * threshold - 1 - rem;
    LowBelow(x, nb - 1);
    if Low(x, nb - 1) < max then (Low(x, nb - 1), nb - 1)
    else
      LowBelow(x, nb);
      Pow2Next(nb - 1);
      var c := Low(x, nb);
      (if c >= threshold then c - max else c, nb)
  }

  lemma LowBelow(x: nat, n: nat)
    ensures Low(x, n) < Pow2(n)
  {
    ShrLow(x, n);
  }

  /** Reading a field gives the count that was written. */
  lemma FieldRead(x: nat, c: nat, rem: nat, threshold: nat, nb: nat)
    requires 2 <= rem && c <= rem && nb == BitLen(rem) && nb >= 1 && threshold == Pow2(nb - 1)
    requires BitsOf(x, |Field(c, rem)|) == Field(c, rem)
    ensures 2 <= threshold <= rem < 2 * threshold && FieldValue(x, rem, threshold, nb) == (c, |Field(c, rem)|)
  {
    hide Pow2, BitLen, BitsOf, Low, Shr;
    FieldIs(c, rem, threshold, nb);
    var max := 2 * threshold - 1 - rem;
    var c' := if c >= threshold then c + max else c;
    var n := if c' < max then nb - 1 else nb;
    NumBits(x, n);
    NumBits(c', n);
    ShrZero(c', n);
    assert Low(x, n) == c';
    if n == nb {
      LowTop(x, nb - 1);
      LowBelow(x, nb - 1);
      TopOrNot(Low(x, nb - 1), Shr(x, nb - 1) % 2, threshold, c');
    }
  }

  lemma TopOrNot(low: nat, bit: nat, threshold: nat, c: nat)
    requires low < threshold && bit <= 1 && c == low + threshold * bit
    ensures low == if c >= threshold then c - threshold else c
  {
    if bit == 1 { assert threshold * bit == threshold; } else { assert threshold * bit == 0; }
  }

  // ----- runs of zeros -----

  lemma {:induction false} RunLength(z: nat)
    ensures |ZeroRun(z)| == 2 * (z / 3) + 2
    decreases z
  {
    if z >= 3 { RunLength(z - 3); }
  }

  /** The pairs of ones at the front of a run, and what follows them. */
  lemma {:induction false} RunPairs(x: nat, z: nat)
    requires BitsOf(x, |ZeroRun(z)|) == ZeroRun(z)
    ensures OnePairs(x) == z / 3 && Low(Shr(x, 2 * (z / 3)), 2) == z % 3
    decreases z
  {
    hide Pow2, BitsOf, Shr, Low;
    RunLength(z);
    if z >= 3 {
      RunLength(z - 3);
      PairAndRest(x, |ZeroRun(z - 3)|);
      PairSplit(x % 2, x / 2 % 2, BitsOf(x / 4, |ZeroRun(z - 3)|), ZeroRun(z - 3));
      RunPairs(x / 4, z - 3);
      ShrFour(x, 2 * ((z - 3) / 3));
    } else {
      NumBits(x, 2);
      NumBits(z, 2);
      TwoBits(x);
      TwoBits(z);
    }
  }

  lemma PairSplit(a: Bit, b: Bit, s: seq<Bit>, t: seq<Bit>)
    requires [a, b] + s == [1, 1] + t
    ensures a == 1 && b == 1 && s == t
  {
    var u, v := [a, b] + s, [1, 1] + t;
    assert u[0] == v[0] && u[1] == v[1] && u[2..] == s && v[2..] == t;
  }

  lemma PairAndRest(x: nat, n: nat)
    ensures BitsOf(x, n + 2) == [x % 2, x / 2 % 2] + BitsOf(x / 4, n)
  {
    assert BitsOf(x, n + 2) == [x % 2] + BitsOf(x / 2, n + 1);
    assert BitsOf(x / 2, n + 1) == [x / 2 % 2] + BitsOf(x / 2 / 2, n);
    assert x / 2 / 2 == x / 4;
  }

  lemma ShrFour(x: nat, n: nat)
    ensures Shr(x / 4, n) == Shr(x, n + 2)
  {
    ShrHalf(x / 2, n);
    ShrHalf(x, n + 1);
    assert x / 2 / 2 == x / 4;
  }

  lemma TwoBits(x: nat)
    ensures Low(x, 2) == x % 4 && Shr(x, 0) == x && (x < 3 ==> x % 4 == x)
  {
    assert Low(x, 2) == x % 2 + 2 * Low(x / 2, 1);
    assert Low(x / 2, 1) == x / 2 % 2 + 2 * Low(x / 4, 0);
    assert x % 4 == x % 2 + 2 * (x / 2 % 2);
  }

  /** The bits a run takes, and the zeros it stands for, whatever x holds. */
  function RunBits(x: nat): nat { 2 * OnePairs(x) + 2 }

  function RunValue(x: nat): nat { 3 * OnePairs(x) + Low(Shr(x, 2 * OnePairs(x)), 2) }

  lemma RunRead(x: nat, z: nat)
    requires BitsOf(x, |ZeroRun(z)|) == ZeroRun(z)
    ensures RunValue(x) == z && RunBits(x) == |ZeroRun(z)|
  {
    hide BitsOf, Shr, Low, OnePairs, ZeroRun;
    RunPairs(x, z);
    RunLength(z);
  }

  /** And these bits are the run of those zeros. */
  lemma {:induction false} RunShown(x: nat)
    ensures BitsOf(x, RunBits(x)) == ZeroRun(RunValue(x))
    decreases x
  {
    hide BitsOf, Shr, Low;
    if x % 4 == 3 {
      RunShown(x / 4);
      PairAndRest(x, RunBits(x / 4));
      ShrFour(x, 2 * OnePairs(x / 4));
    } else {
      TwoBits(x);
      BitsLow(x, 2);
    }
  }

  /** A run of which only w bits can be seen is read past them. */
  lemma {:induction false} RunTorn(x: nat, z: nat, w: nat)
    requires x < Pow2(w) && w < |ZeroRun(z)| && BitsOf(x, w) == ZeroRun(z)[..w]
    ensures RunBits(x) > w
    decreases z
  {
    hide BitsOf;
    RunLength(z);
    if z >= 3 && w >= 2 {
      PairAndRest(x, w - 2);
      PairSplit(x % 2, x / 2 % 2, BitsOf(x / 4, w - 2), ZeroRun(z - 3)[..w - 2]);
      RunLength(z - 3);
      assert Pow2(w) == 2 * Pow2(w - 1) && Pow2(w - 1) == 2 * Pow2(w - 2);
      RunTorn(x / 4, z - 3, w - 2);
    }
  }

  /** Only the bits of x below w can be ones. */
  lemma Unseen(x: nat, w: nat, n: nat)
    requires x < Pow2(w) && w <= n
    ensures BitsOf(x, n) == BitsOf(x, w) + Zeros(n - w)
  {
    hide BitsOf, Pow2, Shr;
    BitsConcat(x, w, n - w);
    ShrZero(x, w);
    ZeroBits(n - w);
  }

  lemma {:induction false} FewPairs(x: nat, w: nat)
    requires x < Pow2(w)
    ensures 2 * OnePairs(x) <= w
    decreases w
  {
    if x % 4 == 3 {
      assert w >= 2;
      assert Pow2(w) == 2 * Pow2(w - 1) && Pow2(w - 1) == 2 * Pow2(w - 2);
      FewPairs(x / 4, w - 2);
    }
  }

  // ----- where the window stands -----

  /** These bits come next, c bits into the four bytes at off, and end the header. */
  ghost predicate Ahead(data: seq<Byte>, end: nat, off: nat, c: nat, rest: seq<Bit>)
  {
    var p := 8 * off + c;
    off + 4 <= |data| && p + |rest| == end <= 8 * |data| && BytesBits(data)[p..end] == rest
  }

  /** The window x begins with them, in its first byte or anywhere in the last four bytes. */
  ghost predicate InWindow(data: seq<Byte>, end: nat, off: nat, c: nat, x: nat, rest: seq<Bit>)
  {
    && Ahead(data, end, off, c, rest) && (c < 8 || off + 4 == |data|)
    && (rest != [] ==> x == Shr(Little(data[off..off + 4]), c))
  }

  /** Whether x begins with these bits, were it to go on with zeros for ever. */
  predicate Shows(x: nat, bits: seq<Bit>) { BitsOf(x, |bits|) == bits }

  /**
   A run of zeros and the count after it, at p, have a one in the last byte, and the window comes to stand on the fifth byte
   from the end while it reads them, from where it does not see the last byte.
   */
  predicate Hidden(p: nat, item: seq<Bit>, size: nat)
  {
    && p / 8 + 5 <= size && (size - 5 - p / 8) % 2 == 0
    && exists i :: 0 <= i < |item| && p + i >= 8 * (size - 1) && item[i] == 1
  }

  lemma Visible(data: seq<Byte>, end: nat, off: nat, c: nat, x: nat, rest: seq<Bit>, n: nat)
    requires InWindow(data, end, off, c, x, rest) && n <= |rest| && (c + n <= 32 || off + 4 == |data|)
    ensures BitsOf(x, n) == rest[..n]
    ensures rest != [] ==> c < 32 && x < Pow2(32 - c)
  {
    hide Shr, BitsOf, BytesBits, Little, Pow2;
    if rest != [] {
      assert c + n <= 32;
      WindowBits(data, off, c, n);
      var p, all := 8 * off + c, BytesBits(data);
      assert p + n <= end <= |all|;
      assert all[p..end][..n] == all[p..p + n];
      WindowBelow(data[off..off + 4], c);
    } else {
      assert BitsOf(x, 0) == [];
    }
  }

  lemma WindowBelow(w: seq<Byte>, c: nat)
    requires |w| == 4 && c <= 32
    ensures Shr(Little(w), c) < Pow2(32 - c)
  {
    hide Shr, BytesBits, Little, Pow2, Low;
    LittleBits(w);
    ShrLow(Little(w), c);
    Pow2Add(32 - c, c);
    TimesBelow(Shr(Little(w), c), Pow2(32 - c), Pow2(c));
  }

  lemma TimesBelow(a: nat, b: nat, p: nat)
    requires a * p < b * p
    ensures a < b
  {
    if a >= b { MulDifference(a, b, p); }
  }

  lemma CutFront(data: seq<Byte>, end: nat, off: nat, c: nat, front: seq<Bit>, rest: seq<Bit>)
    requires Ahead(data, end, off, c, front + rest)
    ensures Ahead(data, end, off, c + |front|, rest)
  {
    hide BytesBits;
    var p, all := 8 * off + c, BytesBits(data);
    assert all[p + |front|..end] == all[p..end][|front|..];
    assert (front + rest)[|front|..] == rest;
  }

  // ----- a run and the count after it -----

  /** At most five bytes before the end, the window shows the run and the count after it exactly when nothing is hidden. */
  lemma WholeShown(data: seq<Byte>, end: nat, off: nat, c: nat, x: nat, item: seq<Bit>, after: seq<Bit>)
    requires InWindow(data, end, off, c, x, item + after) && |data| - off <= 5 && item != []
    ensures Shows(x, item) <==> !Hidden(8 * off + c, item, |data|)
    ensures Hidden(8 * off + c, item, |data|) ==> |data| - off == 5 && c < 8 && |item| > 32 - c
  {
    hide BitsOf, BytesBits, Little, Shr, Pow2;
    var rest, w := item + after, 32 - c;
    Visible(data, end, off, c, x, rest, 0);
    if off + 4 == |data| || |item| <= w {
      Visible(data, end, off, c, x, rest, |item|);
      assert rest[..|item|] == item;
      if off + 4 == |data| { assert (8 * off + c) / 8 >= off; }
    } else {
      assert (8 * off + c) / 8 == off;
      Visible(data, end, off, c, x, rest, w);
      Unseen(x, w, |item|);
      assert rest[..w] == item[..w];
      OnesFrom(8 * off + c, item, |data|, w);
    }
  }

  lemma OnesFrom(p: nat, item: seq<Bit>, size: nat, w: nat)
    requires p / 8 + 5 == size && p + w == 8 * (size - 1) && w <= |item|
    ensures Hidden(p, item, size) <==> item != item[..w] + Zeros(|item| - w)
  {
    var cut := item[..w] + Zeros(|item| - w);
    if Hidden(p, item, size) {
      var i :| 0 <= i < |item| && p + i >= 8 * (size - 1) && item[i] == 1;
      assert cut[i] == 0;
    }
    if item != cut {
      var i :| 0 <= i < |item| && item[i] != cut[i];
      assert p + i >= 8 * (size - 1) && item[i] == 1;
    }
  }

  /** What comes of reading a run when the window does not slide any more. */
  lemma RunOutcome(data: seq<Byte>, end: nat, off: nat, c: nat, x: nat, z: nat, field: seq<Bit>, after: seq<Bit>)
    requires InWindow(data, end, off, c, x, ZeroRun(z) + (field + after)) && |field| <= 10
    requires |data| - off <= 5 || OnePairs(x) < 8
    ensures var hidden, y := Hidden(8 * off + c, ZeroRun(z) + field, |data|), Shr(x, RunBits(x));
            && (hidden ==> |data| - off == 5 && c + RunBits(x) >= 16)
            && (hidden ==> if RunValue(x) == z then !Shows(y, field) else y == 0)
            && (!hidden ==> RunValue(x) == z && RunBits(x) == |ZeroRun(z)|)
            && (|data| - off > 5 ==> c + RunBits(x) < 24)
            && (!hidden && |data| - off <= 5 ==> Shows(y, field))
  {
    hide BitsOf, BytesBits, Little, Shr, Pow2, Low, Ahead, OnePairs, ZeroRun, Hidden;
    var run, item, p, w := ZeroRun(z), ZeroRun(z) + field, 8 * off + c, 32 - c;
    assert run + (field + after) == item + after;
    RunLength(z);
    Visible(data, end, off, c, x, item + after, 0);
    RunSeen(data, end, off, c, x, z, field + after);
    if |data| - off <= 5 {
      WholeShown(data, end, off, c, x, item, after);
      if RunValue(x) == z {
        RunShown(x);
        RunRead(x, z);
        BitsConcat(x, |run|, |field|);
        assert item[..|run|] == run && item[|run|..] == field;
        assert Shows(x, item) <==> Shows(Shr(x, |run|), field);
      } else {
        if Shows(x, item) {
          BitsConcat(x, |run|, |field|);
          assert BitsOf(x, |run|) == item[..|run|] == run;
          RunRead(x, z);
          assert false;
        }
        ShrZero(x, w);
        ShrAdd(x, w, RunBits(x) - w);
        NothingLeft(RunBits(x) - w);
      }
    } else {
      NothingHidden(p, item, off, c, |data|);
    }
  }

  lemma NothingLeft(n: nat)
    ensures Shr(0, n) == 0
  {
    PowersToByte();
    assert Pow2(n) >= 1;
    ShrZero(0, n);
  }

  /** A run is read right, or read past the end of the window. */
  lemma RunSeen(data: seq<Byte>, end: nat, off: nat, c: nat, x: nat, z: nat, rest: seq<Bit>)
    requires InWindow(data, end, off, c, x, ZeroRun(z) + rest)
    ensures (RunValue(x) == z && RunBits(x) == |ZeroRun(z)|) || RunBits(x) > 32 - c
    ensures |data| - off > 5 && OnePairs(x) < 8 ==> RunValue(x) == z && RunBits(x) == |ZeroRun(z)| && |ZeroRun(z)| <= 16
  {
    hide BitsOf, BytesBits, Little, Shr, Pow2, Low, Ahead, OnePairs, ZeroRun;
    var run, all, w := ZeroRun(z), ZeroRun(z) + rest, 32 - c;
    RunLength(z);
    Visible(data, end, off, c, x, all, 0);
    if |run| <= w || off + 4 == |data| {
      Visible(data, end, off, c, x, all, |run|);
      assert all[..|run|] == run;
      RunRead(x, z);
    } else {
      Visible(data, end, off, c, x, all, w);
      assert all[..w] == run[..w];
      RunTorn(x, z, w);
    }
  }

  lemma NothingHidden(p: nat, item: seq<Bit>, off: nat, c: nat, size: nat)
    requires p == 8 * off + c && c < 8 && off + 5 < size && |item| <= 26
    ensures !Hidden(p, item, size)
  {
  }

  /** Sliding over sixteen ones leaves hidden what was, and shows what was not. */
  lemma HiddenBehind(p: nat, ones: seq<Bit>, item: seq<Bit>, size: nat)
    requires |ones| == 16 && p / 8 + 5 < size
    ensures Hidden(p, ones + item, size) <==> Hidden(p + 16, item, size)
  {
    var all := ones + item;
    assert (p + 16) / 8 == p / 8 + 2;
    if Hidden(p, all, size) {
      var i :| 0 <= i < |all| && p + i >= 8 * (size - 1) && all[i] == 1;
      assert item[i - 16] == 1;
    }
    if Hidden(p + 16, item, size) {
      var i :| 0 <= i < |item| && p + 16 + i >= 8 * (size - 1) && item[i] == 1;
      assert all[i + 16] == 1;
    }
  }

  // ----- the reader -----

  class CountReader {
    const data: seq<Byte>
    /** Where the header ends, in bits. */
    ghost const end: nat
    var off: nat
    var bitStream: nat
    var bitCount: nat

    /** At least four bytes to look at. */
    ghost predicate Valid()
      reads this
    {
      off + 4 <= |data|
    }

    /** The window stands in front of these bits, which end the header. */
    ghost predicate At(rest: seq<Bit>)
      reads this
    {
      InWindow(data, end, off, bitCount, bitStream, rest)
    }

    constructor (d: seq<Byte>, at: nat, ghost e: nat)
      requires at + 4 <= |d|
      ensures end == e && data == d && off == at && bitCount == 0 && Valid() && bitStream == Shr(Little(d[at..at + 4]), 0)
    {
      data, off, bitCount := d, at, 0;
      end := e;
      bitStream := Shr(Little(d[at..at + 4]), 0);
    }

    /** Past n of the bits. */
    method Skip(n: nat)
      modifies this`bitStream, this`bitCount
      ensures bitCount == old(bitCount) + n && bitStream == Shr(old(bitStream), n)
    {
      bitStream := Shr(bitStream, n);
      bitCount := bitCount + n;
    }

    /** Moves the window over the bytes that are used up; near the end it stays on the last four. */
    method Refresh(ghost rest: seq<Bit>)
      requires Valid() && (|data| - off >= 7 ==> bitCount < 32)
      modifies this
      ensures Valid() && (|data| - off >= 7 ==> bitCount < 8)
      ensures old(Ahead(data, end, off, bitCount, rest)) ==> At(rest) && 8 * off + bitCount == old(8 * off + bitCount)
    {
      hide Shr, BytesBits, Little;
      var r := |data| - off;
      if r >= 7 || r - bitCount / 8 >= 4 {
        off := off + bitCount / 8;
        bitCount := bitCount % 8;
        bitStream := Shr(Little(data[off..off + 4]), bitCount);
      } else {
        bitCount := bitCount - 8 * (|data| - 4 - off);
        off := |data| - 4;
        bitStream := Shr(Little(data[off..off + 4]), bitCount % 32);
      }
    }

    /** After a run of zeros: as before, but near the end the last two bits are dropped and the window stays. */
    method RefreshRun()
      requires Valid() && (|data| - off >= 7 ==> bitCount + 2 < 32)
      modifies this
      ensures Valid() && (|data| - off >= 7 ==> bitCount < 8)
      ensures 8 * off + bitCount == old(8 * off + bitCount) + 2
      ensures var r := |data| - old(off);
              if r >= 7 || r - (old(bitCount) + 2) / 8 >= 4 then bitCount < 8 && bitStream == Shr(Little(data[off..off + 4]), bitCount)
              else off == old(off) && bitStream == Shr(old(bitStream), 2)
    {
      hide Shr, Little;
      bitCount := bitCount + 2;
      var r := |data| - off;
      if r >= 7 || r - bitCount / 8 >= 4 {
        off := off + bitCount / 8;
        bitCount := bitCount % 8;
        bitStream := Shr(Little(data[off..off + 4]), bitCount);
      } else {
        bitStream := Shr(bitStream, 2);
      }
    }

    /** Past sixteen ones. */
    method Jump()
      requires Valid() && Low(bitStream, 16) == 0xffff && (|data| - off >= 7 ==> bitCount < 8)
      modifies this
      ensures Valid() && (|data| - off >= 7 ==> bitCount < 8)
      ensures if |data| - old(off) > 5 then off == old(off) + 2 && bitCount == old(bitCount) && bitStream == Shr(Little(data[off..off + 4]), bitCount)
              else off == old(off) && bitCount == old(bitCount) + 16 && bitStream == Shr(old(bitStream), 16) < old(bitStream)
    {
      hide Shr, Little, Low;
      if |data| - off > 5 {
        off := off + 2;
        bitStream := Shr(Little(data[off..off + 4]), bitCount);
      } else {
        ShrinksBy16(bitStream);
        bitStream := Shr(bitStream, 16);
        bitCount := bitCount + 16;
      }
    }

    static lemma ShrinksBy16(x: nat)
      requires Low(x, 16) == 0xffff
      ensures Shr(x, 16) < x
    {
      hide Pow2, Shr, Low;
      ShrLow(x, 16);
      assert Shr(x, 16) * Pow2(16) >= Shr(x, 16);
    }

    /** Sixteen ones at the front of a run are twenty-four zeros, and sliding over them keeps the window in front of the rest. */
    static lemma Slide(data: seq<Byte>, end: nat, off: nat, c: nat, x: nat, left: nat, field: seq<Bit>, after: seq<Bit>)
      requires InWindow(data, end, off, c, x, ZeroRun(left) + (field + after)) && |data| - off > 5 && Low(x, 16) == 0xffff
      ensures left >= 24
      ensures InWindow(data, end, off + 2, c, Shr(Little(data[off + 2..off + 6]), c), ZeroRun(left - 24) + (field + after))
      ensures Hidden(8 * off + c, ZeroRun(left) + field, |data|) <==> Hidden(8 * (off + 2) + c, ZeroRun(left - 24) + field, |data|)
    {
      hide Shr, BytesBits, Little, Low, BitsOf, ZeroRun, OnePairs, Hidden, Pow2;
      RunLength(left);
      SixteenPairs(x);
      if left < 24 {
        Visible(data, end, off, c, x, ZeroRun(left) + (field + after), |ZeroRun(left)|);
        assert (ZeroRun(left) + (field + after))[..|ZeroRun(left)|] == ZeroRun(left);
        RunPairs(x, left);
        assert false;
      }
      EightPairs(left);
      var ones, more := BitsOf(0xffff, 16), ZeroRun(left - 24);
      assert ones + more + (field + after) == ones + (more + (field + after));
      assert ones + more + field == ones + (more + field);
      CutFront(data, end, off, c, ones, more + (field + after));
      HiddenBehind(8 * off + c, ones, more + field, |data|);
    }

    static lemma SixteenPairs(x: nat)
      ensures Low(x, 16) == 0xffff <==> OnePairs(x) >= 8
    {
      hide Pow2, Low;
      OnePairsOnes(x, 8);
      PowersToByte();
      Pow2Add(8, 8);
    }

    static lemma {:induction false} PairsBehind(x: nat, k: nat)
      requires k <= OnePairs(x)
      ensures OnePairs(Shr(x, 2 * k)) == OnePairs(x) - k
      decreases k
    {
      hide Shr;
      if k > 0 {
        PairsBehind(x / 4, k - 1);
        ShrFour(x, 2 * (k - 1));
      } else {
        NothingSkipped(x);
      }
    }

    static lemma PairFirst(x: nat)
      ensures Low(x, 2) == 3 <==> OnePairs(x) >= 1
      ensures OnePairs(x) >= 1 ==> Shr(x, 2) < x
      ensures Low(x, 2) < 4
    {
      hide Low;
      TwoBits(x);
      assert Shr(x, 2) == x / 2 / 2 by { assert Shr(x, 2) == Shr(x, 1) / 2 && Shr(x, 1) == Shr(x, 0) / 2; }
      assert x / 2 / 2 == x / 4;
    }

    /**
     A run of zeros: the number of symbols it leads to, counted in 16 bits. When nothing is hidden, it is read and the count
     after it is in sight; when something is, the run is read and the count is not in sight, or neither, and zeros are.
     */
    method ReadZeros(n: nat, ghost z: nat, ghost field: seq<Bit>, ghost after: seq<Bit>, ghost track: bool) returns (n0: nat)
      requires Valid() && n <= 256 && (|data| - off >= 7 ==> bitCount < 8)
      requires track ==> At(ZeroRun(z) + (field + after)) && z <= 256 && |field| <= 10
      modifies this
      ensures Valid() && (|data| - off >= 7 ==> bitCount < 8)
      ensures track && !Hidden(old(8 * off + bitCount), ZeroRun(z) + field, |data|) ==>
                && n0 == n + z && Shows(bitStream, field) && Ahead(data, end, off, bitCount, field + after)
                && 8 * off + bitCount == old(8 * off + bitCount) + |ZeroRun(z)|
      ensures track && Hidden(old(8 * off + bitCount), ZeroRun(z) + field, |data|) ==>
                n0 >= n && if n0 == n + z then !Shows(bitStream, field) else bitStream == 0
    {
      hide Shr, BytesBits, Little, BitsOf, Low, ZeroRun, InWindow, Ahead, Hidden, Shows, Pow2, OnePairs;
      ghost var hidden := Hidden(8 * off + bitCount, ZeroRun(z) + field, |data|);
      if track { BitsInWindow(bitStream, z, field, after); }
      ghost var left, c, x;
      n0, left, c, x := TakeOnes(n, z, field, after, track);
      SixteenPairs(bitStream);
      if track { RunOutcome(data, end, off, c, x, left, field, after); }
      ghost var off1 := off;
      n0 := EndRun(n0, c, x);
      if track && !hidden { MovedOn(off1, c, x, ZeroRun(left), field, after); }
    }

    /** The pairs of ones that are left, and the last two bits. */
    method EndRun(n: nat, ghost c: nat, ghost x: nat) returns (n0: nat)
      requires Valid() && c <= bitCount && (bitCount - c) % 2 == 0 && OnePairs(bitStream) < 8 && (|data| - off >= 7 ==> bitCount < 8)
      requires bitStream == Shr(x, bitCount - c) && OnePairs(x) == (bitCount - c) / 2 + OnePairs(bitStream)
      modifies this
      ensures Valid() && (|data| - off >= 7 ==> bitCount < 8)
      ensures 8 * off + bitCount == 8 * old(off) + c + RunBits(x)
      ensures n <= 1024 ==> n0 == n - 3 * ((old(bitCount) - c) / 2) + RunValue(x)
      ensures var r := |data| - old(off);
              if r >= 7 || r - (c + RunBits(x)) / 8 >= 4 then bitCount < 8 && bitStream == Shr(Little(data[off..off + 4]), bitCount)
              else off == old(off) && bitStream == Shr(x, RunBits(x))
    {
      hide Shr, Little, Low, OnePairs;
      n0 := ReadPairs(n, c, x);
      n0 := (n0 + Low(bitStream, 2)) % 0x1_0000;
      ShrAdd(x, 2 * OnePairs(x), 2);
      RefreshRun();
    }

    /** Sixteen ones at a time: the window slides over them, or near the end drops them. */
    method TakeOnes(n: nat, ghost z: nat, ghost field: seq<Bit>, ghost after: seq<Bit>, ghost track: bool)
      returns (n0: nat, ghost left: nat, ghost c: nat, ghost x: nat)
      requires Valid() && n <= 256 && (|data| - off >= 7 ==> bitCount < 8)
      requires track ==> At(ZeroRun(z) + (field + after)) && z <= 256
      modifies this
      ensures Valid() && (|data| - off >= 7 ==> bitCount < 8) && Low(bitStream, 16) != 0xffff
      ensures c <= bitCount && (bitCount > c ==> |data| - off <= 5) && (bitCount - c) % 2 == 0
      ensures bitStream == Shr(x, bitCount - c) && OnePairs(x) == (bitCount - c) / 2 + OnePairs(bitStream)
      ensures track ==> InWindow(data, end, off, c, x, ZeroRun(left) + (field + after)) && left <= z && OnePairs(x) <= 16
      ensures track ==> Hidden(old(8 * off + bitCount), ZeroRun(z) + field, |data|) == Hidden(8 * off + c, ZeroRun(left) + field, |data|)
      ensures track ==> n0 == n + (z - left) + 3 * ((bitCount - c) / 2)
    {
      hide Shr, BytesBits, Little, BitsOf, Low, ZeroRun, InWindow, Ahead, Hidden, Shows, Pow2, OnePairs;
      ghost var hidden := Hidden(8 * off + bitCount, ZeroRun(z) + field, |data|);
      n0, left, c, x := n, z, bitCount, bitStream;
      if track { BitsInWindow(x, z, field, after); }
      NothingSkipped(x);
      while Low(bitStream, 16) == 0xffff
        invariant Valid() && (|data| - off >= 7 ==> bitCount < 8)
        invariant c <= bitCount && (bitCount > c ==> |data| - off <= 5) && (bitCount - c) % 2 == 0
        invariant bitStream == Shr(x, bitCount - c) && OnePairs(x) == (bitCount - c) / 2 + OnePairs(bitStream)
        invariant track ==> InWindow(data, end, off, c, x, ZeroRun(left) + (field + after)) && left <= z && OnePairs(x) <= 16
        invariant track ==> hidden == Hidden(8 * off + c, ZeroRun(left) + field, |data|)
        invariant track ==> n0 == n + (z - left) + 3 * ((bitCount - c) / 2)
        decreases |data| - off, bitStream
      {
        SixteenPairs(bitStream);
        PairsBehind(bitStream, 8);
        NothingSkipped(x);
        ghost var slides := |data| - off > 5;
        if slides && track { Slide(data, end, off, c, x, left, field, after); }
        if !slides { ShrAdd(x, bitCount - c, 16); }
        n0 := (n0 + 24) % 0x1_0000;
        Jump();
        if slides {
          x := bitStream;
          NothingSkipped(x);
          if track {
            left := left - 24;
            BitsInWindow(x, left, field, after);
          }
        }
      }
    }

    /** The window behind a run that was read. */
    lemma MovedOn(off1: nat, c: nat, x: nat, run: seq<Bit>, field: seq<Bit>, after: seq<Bit>)
      requires Valid() && InWindow(data, end, off1, c, x, run + (field + after)) && |field| <= 10
      requires 8 * off + bitCount == 8 * off1 + c + |run|
      requires (bitCount < 8 && bitStream == Shr(Little(data[off..off + 4]), bitCount)) || Shows(bitStream, field)
      ensures Shows(bitStream, field) && Ahead(data, end, off, bitCount, field + after) && 8 * off + bitCount + |field + after| == end
    {
      hide Shr, BytesBits, Little, BitsOf;
      CutFront(data, end, off1, c, run, field + after);
      assert Ahead(data, end, off, bitCount, field + after);
      if bitCount < 8 && bitStream == Shr(Little(data[off..off + 4]), bitCount) {
        Visible(data, end, off, bitCount, bitStream, field + after, |field|);
        assert (field + after)[..|field|] == field;
      }
    }

    lemma BitsInWindow(x: nat, left: nat, field: seq<Bit>, after: seq<Bit>)
      requires InWindow(data, end, off, bitCount, x, ZeroRun(left) + (field + after))
      ensures OnePairs(x) <= 16 && 8 * off + bitCount + |ZeroRun(left) + (field + after)| == end
    {
      hide Shr, BytesBits, Little, BitsOf, ZeroRun, Pow2, OnePairs;
      RunLength(left);
      Visible(data, end, off, bitCount, x, ZeroRun(left) + (field + after), 0);
      FewPairs(x, 32 - bitCount);
    }

    static lemma NothingSkipped(x: nat)
      ensures Shr(x, 0) == x
    {
    }

    /** The pairs of ones that are left. */
    method ReadPairs(n: nat, ghost c: nat, ghost x: nat) returns (n0: nat)
      requires Valid() && c <= bitCount && (bitCount - c) % 2 == 0 && OnePairs(bitStream) < 8 && (|data| - off >= 7 ==> bitCount < 8)
      requires bitStream == Shr(x, bitCount - c) && OnePairs(x) == (bitCount - c) / 2 + OnePairs(bitStream)
      modifies this`bitStream, this`bitCount
      ensures bitCount == c + 2 * OnePairs(x) && bitStream == Shr(x, 2 * OnePairs(x)) && (|data| - off >= 7 ==> bitCount < 24)
      ensures Low(bitStream, 2) < 3
      ensures n <= 1024 ==> n0 == n + 3 * ((bitCount - old(bitCount)) / 2)
    {
      hide Shr, Low, OnePairs;
      n0 := n;
      while Low(bitStream, 2) == 3
        invariant old(bitCount) <= bitCount <= old(bitCount) + 14 && (bitCount - c) % 2 == 0
        invariant bitStream == Shr(x, bitCount - c) && OnePairs(x) == (bitCount - c) / 2 + OnePairs(bitStream)
        invariant (bitCount - old(bitCount)) / 2 + OnePairs(bitStream) == old(OnePairs(bitStream)) && (bitCount - old(bitCount)) % 2 == 0
        invariant n <= 1024 ==> n0 == n + 3 * ((bitCount - old(bitCount)) / 2)
        decreases bitStream
      {
        PairFirst(bitStream);
        PairsBehind(bitStream, 1);
        ShrAdd(x, bitCount - c, 2);
        n0 := (n0 + 3) % 0x1_0000;
        Skip(2);
      }
      PairFirst(bitStream);
    }

    /** One count. It is the one written exactly when that is in sight. */
    method ReadField(rem: nat, threshold: nat, nb: nat, ghost c: nat, ghost after: seq<Bit>) returns (count: nat)
      requires Valid() && (|data| - off >= 7 ==> bitCount < 8) && 1 <= nb <= 10
      requires threshold == Pow2(nb - 1) && 2 <= threshold <= rem < 2 * threshold && nb == BitLen(rem)
      modifies this
      ensures Valid() && (|data| - off >= 7 ==> bitCount < 8) && count <= rem
      ensures old(bitStream) == 0 ==> count == 0
      ensures c <= rem ==> (count == c <==> old(Shows(bitStream, Field(c, rem))))
      ensures c <= rem && count == c && old(Ahead(data, end, off, bitCount, Field(c, rem) + after)) ==>
                At(after) && 8 * off + bitCount == old(8 * off + bitCount) + |Field(c, rem)|
    {
      hide Shr, BytesBits, Little, BitsOf, Low, InWindow, Ahead, Pow2, Field, FieldValue, BitLen;
      var (v, n) := FieldValue(bitStream, rem, threshold, nb);
      FieldShown(bitStream, rem, threshold, nb);
      FieldOfZero(rem, threshold, nb);
      if c <= rem && Shows(bitStream, Field(c, rem)) { FieldRead(bitStream, c, rem, threshold, nb); }
      count := v;
      if v == c && Ahead(data, end, off, bitCount, Field(c, rem) + after) { CutFront(data, end, off, bitCount, Field(c, rem), after); }
      Skip(n);
      Refresh(after);
    }
  }

  /** The bits read are those of the count. */
  lemma FieldShown(x: nat, rem: nat, threshold: nat, nb: nat)
    requires 2 <= threshold <= rem < 2 * threshold && nb >= 1 && threshold == Pow2(nb - 1) && nb == BitLen(rem)
    ensures var (c, n) := FieldValue(x, rem, threshold, nb); n == |Field(c, rem)| && BitsOf(x, n) == Field(c, rem)
  {
    hide Pow2, BitLen, BitsOf, Low, Shr, Field;
    var (c, n) := FieldValue(x, rem, threshold, nb);
    FieldIs(c, rem, threshold, nb);
    LowBelow(x, nb);
    LowBelow(x, nb - 1);
    Pow2Next(nb - 1);
    LowTop(x, nb - 1);
    TopOrNot(Low(x, nb - 1), Shr(x, nb - 1) % 2, threshold, Low(x, nb));
    BitsLow(x, nb);
    BitsLow(x, nb - 1);
  }

  lemma FieldOfZero(rem: nat, threshold: nat, nb: nat)
    requires 2 <= threshold <= rem < 2 * threshold && nb >= 1 && threshold == Pow2(nb - 1)
    ensures FieldValue(0, rem, threshold, nb).0 == 0
  {
    hide Pow2;
    ShrZero(0, nb);
    ShrZero(0, nb - 1);
  }

  lemma FieldLen(c: nat, rem: nat, threshold: nat, nb: nat)
    requires 2 <= rem && c <= rem && nb == BitLen(rem) && nb >= 1 && threshold == Pow2(nb - 1)
    ensures |Field(c, rem)| <= nb
  {
    hide Pow2, BitLen, BitsOf;
    FieldIs(c, rem, threshold, nb);
  }

  // ----- the whole header -----

  /** The header of these counts stands here; anything may follow, or nothing. */
  ghost predicate IsHeader(data: seq<Byte>, off: nat, norm: seq<int>, log: nat)
  {
    && Counts(norm) && 5 <= log <= 9 && Total(norm) == Pow2(log)
    && var h := HeaderBits(norm, log);
       && 8 * off + |h| <= 8 * |data|
       && BytesBits(data)[8 * off..8 * off + |h|] == h
  }

  /** Some run of zeros from symbol k on, whose bits are at p, is followed by something hidden from the reader. */
  predicate Blind(norm: seq<int>, k: nat, previous0: bool, p: nat, size: nat)
    requires Counts(norm) && k <= |norm|
    decreases |norm| - k
  {
    TotalFrom(norm, k) > 0 &&
    var k1 := if previous0 then SkipZeros(norm, k) else k;
    CellsLeft(norm, k1);
    var item := (if previous0 then ZeroRun(k1 - k) else []) + Field(norm[k1] + 1, 1 + TotalFrom(norm, k1));
    (previous0 && Hidden(p, item, size)) || Blind(norm, k1 + 1, norm[k1] == 0, p + |item|, size)
  }

  /** Nothing is hidden when a byte follows the header. */
  lemma {:induction false} SightBehind(norm: seq<int>, k: nat, previous0: bool, p: nat, size: nat)
    requires Counts(norm) && k <= |norm| && p + |CountBits(norm, k, previous0)| <= 8 * (size - 1)
    ensures !Blind(norm, k, previous0, p, size)
    decreases |norm| - k
  {
    hide ZeroRun, Field, Hidden, TotalFrom;
    if TotalFrom(norm, k) > 0 {
      CountBitsStep(norm, k, previous0);
      var k1 := if previous0 then SkipZeros(norm, k) else k;
      var item := (if previous0 then ZeroRun(k1 - k) else []) + Field(norm[k1] + 1, 1 + TotalFrom(norm, k1));
      SeenWhole(p, item, size);
      SightBehind(norm, k1 + 1, norm[k1] == 0, p + |item|, size);
    }
  }

  lemma SeenWhole(p: nat, item: seq<Bit>, size: nat)
    requires p + |item| <= 8 * (size - 1)
    ensures !Hidden(p, item, size)
  {
  }

  /** A header with a byte behind it hides nothing. */
  lemma ByteBehind(norm: seq<int>, log: nat, off: nat, size: nat)
    requires Counts(norm) && log >= 5 && off + (|HeaderBits(norm, log)| + 7) / 8 < size
    ensures !Blind(norm, 0, false, 8 * off + 4, size)
  {
    hide CountBits;
    SightBehind(norm, 0, false, 8 * off + 4, size);
  }

  /** What WriteCount returns is such a header wherever it stands. */
  lemma WrittenIsHeader(norm: seq<int>, log: nat, before: seq<Byte>, r: seq<Byte>, after: seq<Byte>)
    requires Counts(norm) && 5 <= log <= 9 && Total(norm) == Pow2(log)
    requires |r| == (|HeaderBits(norm, log)| + 7) / 8
    requires BytesBits(r) == HeaderBits(norm, log) + Zeros(8 * |r| - |HeaderBits(norm, log)|)
    ensures IsHeader(before + r + after, |before|, norm, log)
  {
    hide BytesBits, HeaderBits, Total, Pow2;
    BytesConcat(before + r, after);
    BytesConcat(before, r);
    var h, all := HeaderBits(norm, log), BytesBits(before + r + after);
    assert all[8 * |before|..8 * |before| + |h|] == h;
  }

  lemma {:induction false} UsedIs(norm: seq<int>, k: nat, u: nat)
    requires Counts(norm) && k <= u <= |norm| && TotalFrom(norm, u) == 0
    requires forall i :: k <= i < u ==> TotalFrom(norm, i) > 0
    ensures Used(norm, k) == u
    decreases u - k
  {
    if k < u { UsedIs(norm, k + 1, u); }
  }

  lemma {:induction false} UsedAfter(norm: seq<int>, k: nat, i: nat)
    requires Counts(norm) && k <= i <= |norm| && TotalFrom(norm, i) > 0
    ensures i < Used(norm, k)
    decreases i - k
  {
    TotalFalls(norm, k, i);
    if k < i { UsedAfter(norm, k + 1, i); }
  }

  lemma {:induction false} TotalFalls(norm: seq<int>, k: nat, i: nat)
    requires Counts(norm) && k <= i <= |norm|
    ensures TotalFrom(norm, k) >= TotalFrom(norm, i)
    decreases i - k
  {
    if k < i { TotalFalls(norm, k + 1, i); }
  }

  lemma TotalSnoc(norm: seq<int>, v: int)
    requires Counts(norm) && v >= -1
    ensures Counts(norm + [v]) && Total(norm + [v]) == Total(norm) + Weight(v)
  {
    assert (norm + [v])[..|norm|] == norm;
  }

  /** What the reader knows while it reads a true header. */
  ghost predicate OnHeader(rd: CountReader, norm0: seq<int>, norm: seq<int>, remaining: nat, previous0: bool)
    reads rd
  {
    && Counts(norm0) && |norm| <= |norm0| && norm == norm0[..|norm|]
    && remaining == 1 + TotalFrom(norm0, |norm|)
    && (forall i :: 0 <= i < |norm| ==> TotalFrom(norm0, i) > 0)
    && rd.At(CountBits(norm0, |norm|, previous0))
  }

  /** The next count of a true header, and how far it is. */
  lemma HeaderStep(norm0: seq<int>, k: nat, previous0: bool, p: nat, size: nat) returns (k1: nat, run: seq<Bit>, field: seq<Bit>, after: seq<Bit>)
    requires Counts(norm0) && k <= |norm0| && TotalFrom(norm0, k) > 0
    ensures k <= k1 < |norm0| && (if previous0 then norm0[k1] != 0 else k1 == k) && (forall i :: k <= i < k1 ==> norm0[i] == 0)
    ensures TotalFrom(norm0, k1) == TotalFrom(norm0, k) && norm0[k1] + 1 <= 1 + TotalFrom(norm0, k1) && norm0[k1] >= -1
    ensures run == (if previous0 then ZeroRun(k1 - k) else []) && field == Field(norm0[k1] + 1, 1 + TotalFrom(norm0, k1))
    ensures after == CountBits(norm0, k1 + 1, norm0[k1] == 0)
    ensures CountBits(norm0, k, previous0) == run + (field + after)
    ensures Blind(norm0, k, previous0, p, size) <==>
              (previous0 && Hidden(p, run + field, size)) || Blind(norm0, k1 + 1, norm0[k1] == 0, p + |run + field|, size)
  {
    hide ZeroRun, Field, TotalFrom, CountBits, Hidden;
    CountBitsStep(norm0, k, previous0);
    k1 := if previous0 then SkipZeros(norm0, k) else k;
    run := if previous0 then ZeroRun(k1 - k) else [];
    field := Field(norm0[k1] + 1, 1 + TotalFrom(norm0, k1));
    after := CountBits(norm0, k1 + 1, norm0[k1] == 0);
  }

  /** Reads the size of the table. */
  method OpenHeader(data: seq<Byte>, off0: nat, ghost norm0: seq<int>, ghost log0: nat, ghost good: bool) returns (rd: CountReader, log: nat)
    requires off0 + 4 <= |data| && (good ==> IsHeader(data, off0, norm0, log0))
    ensures fresh(rd) && rd.Valid() && rd.data == data && rd.bitCount == 4 && rd.off == off0 && log >= 5
    ensures good ==> log == log0 && rd.end == 8 * off0 + |HeaderBits(norm0, log0)| && rd.At(CountBits(norm0, 0, false))
  {
    hide BytesBits, Little, BitsOf, Shr, Low, Pow2, CountBits, Total;
    rd := new CountReader(data, off0, if good then 8 * off0 + |HeaderBits(norm0, log0)| else 0);
    log := Low(rd.bitStream, 4) + 5;
    if good {
      var h := HeaderBits(norm0, log0);
      Visible(data, rd.end, off0, 0, rd.bitStream, h, 4);
      assert h[..4] == BitsOf(log0 - 5, 4) && h[4..] == CountBits(norm0, 0, false);
      NumBits(rd.bitStream, 4);
      NumBits(log0 - 5, 4);
      LogFits(log0);
      ShrZero(log0 - 5, 4);
      CutFront(data, rd.end, off0, 0, h[..4], h[4..]);
    }
    ShrAdd(Little(data[off0..off0 + 4]), 0, 4);
    rd.Skip(4);
  }

  /** Appends zeros up to the n-th symbol. */
  method AddZeros(norm0: seq<int>, n: nat) returns (norm: seq<int>)
    requires Counts(norm0)
    ensures Counts(norm) && Total(norm) == Total(norm0) && norm0 <= norm && |norm| == if n >= |norm0| then n else |norm0|
    ensures forall i :: |norm0| <= i < |norm| ==> norm[i] == 0
  {
    hide Total;
    norm := norm0;
    while |norm| < n
      invariant Counts(norm) && Total(norm) == Total(norm0) && norm0 <= norm && (|norm| <= n || norm == norm0)
      invariant forall i :: |norm0| <= i < |norm| ==> norm[i] == 0
    {
      TotalSnoc(norm, 0);
      norm := norm + [0];
    }
  }

  /** The zeros and the next count of a true header are those of the header. */
  lemma StillOn(norm0: seq<int>, norm: seq<int>, more: seq<int>, k1: nat)
    requires Counts(norm0) && |norm| <= k1 < |norm0| && norm == norm0[..|norm|] && norm <= more && |more| == k1
    requires forall i :: |norm| <= i < k1 ==> norm0[i] == 0 && more[i] == 0
    requires TotalFrom(norm0, k1) > 0 && forall i :: 0 <= i < |norm| ==> TotalFrom(norm0, i) > 0
    ensures more + [norm0[k1]] == norm0[..k1 + 1]
    ensures forall i :: 0 <= i <= k1 ==> TotalFrom(norm0, i) > 0
  {
    hide TotalFrom;
    forall i | 0 <= i <= k1
      ensures TotalFrom(norm0, i) > 0
    {
      TotalFalls(norm0, i, k1);
    }
    assert more == norm0[..k1];
  }

  /** Zeros up to the wrong symbol, or the wrong count behind them, are not what the header says. */
  lemma Strayed(norm0: seq<int>, norm: seq<int>, more: seq<int>, k1: nat, v: int)
    requires |norm| <= k1 < |norm0| && norm <= norm0 && norm <= more && |norm| <= |more|
    requires forall i :: |norm| <= i < k1 ==> norm0[i] == 0
    requires forall i :: |norm| <= i < |more| ==> more[i] == 0
    requires if |more| == k1 then v != norm0[k1] else v != 0 && norm0[k1] != 0
    ensures !(more + [v] <= norm0)
  {
    if |more| > k1 { assert (more + [v])[k1] == more[k1]; } else { assert (more + [v])[|more|] == v; }
  }

  /**
   One count, after the zeros that come before it: those of the header, unless something was hidden. When something was, they
   are not.
   */
  method ReadOne(rd: CountReader, norm: seq<int>, rem: nat, previous0: bool, threshold: nat, nbBits: nat, ghost norm0: seq<int>, ghost track: bool)
    returns (ok: bool, norm': seq<int>, rem': nat, previous0': bool)
    requires rd.Valid() && (|rd.data| - rd.off >= 7 ==> rd.bitCount < 8) && |norm| <= 255 && Counts(norm) && rem >= 2
    requires nbBits == BitLen(rem) && 1 <= nbBits <= 10 && threshold == Pow2(nbBits - 1)
    requires track ==> OnHeader(rd, norm0, norm, rem, previous0) && Used(norm0, 0) <= 256
    modifies rd
    ensures ok ==> rd.Valid() && (|rd.data| - rd.off >= 7 ==> rd.bitCount < 8)
    ensures ok ==> norm <= norm' && |norm| < |norm'| <= 256 && Counts(norm') && Total(norm') + rem' == Total(norm) + rem && 1 <= rem' < 2 * threshold
    ensures track && !(ok && norm' <= norm0) ==> Blind(norm0, |norm|, previous0, old(8 * rd.off + rd.bitCount), |rd.data|)
    ensures track && ok && norm' <= norm0 ==>
              && OnHeader(rd, norm0, norm', rem', previous0')
              && (Blind(norm0, |norm|, previous0, old(8 * rd.off + rd.bitCount), |rd.data|) <==>
                  Blind(norm0, |norm'|, previous0', 8 * rd.off + rd.bitCount, |rd.data|))
  {
    hide BytesBits, Little, BitsOf, Shr, Low, Pow2, CountBits, TotalFrom, Total, InWindow, Ahead, Hidden, Shows, Blind, BitLen, Used, Field, ZeroRun;
    ghost var k1: nat, run, field, after := |norm|, [], [], [];
    ghost var c: nat := 0;
    ghost var p := 8 * rd.off + rd.bitCount;
    if track {
      k1, run, field, after := HeaderStep(norm0, |norm|, previous0, p, |rd.data|);
      UsedAfter(norm0, 0, k1);
      c := norm0[k1] + 1;
      FieldLen(c, rem, threshold, nbBits);
      if !previous0 { FirstInSight(rd, field, after); }
    }
    ghost var hidden := previous0 && Hidden(p, run + field, |rd.data|);
    norm', rem', previous0' := norm, rem, previous0;
    if previous0 {
      var n0 := rd.ReadZeros(|norm|, k1 - |norm|, field, after, track);
      if n0 > 255 {
        return false, norm', rem', previous0';
      }
      norm' := AddZeros(norm, n0);
    }
    FieldSizes(rem);
    SameThreshold(rem, threshold, nbBits);
    ghost var q := 8 * rd.off + rd.bitCount;
    var count: int;
    count := rd.ReadField(rem, threshold, nbBits, c, after);
    if track {
      if hidden { Strayed(norm0, norm, norm', k1, count - 1); }
      else {
        StillOn(norm0, norm, norm', k1);
        CellsLeft(norm0, k1);
      }
    }
    TotalSnoc(norm', count - 1);
    norm' := norm' + [count - 1];
    rem' := rem - (if count == 0 then 1 else count - 1);
    previous0' := count == 1;
    ok := true;
  }

  /** A count that does not come after a run is in sight. */
  lemma FirstInSight(rd: CountReader, field: seq<Bit>, after: seq<Bit>)
    requires rd.At([] + (field + after)) && |field| <= 10
    ensures Shows(rd.bitStream, field) && Ahead(rd.data, rd.end, rd.off, rd.bitCount, field + after)
  {
    hide BytesBits, Little, BitsOf, Shr;
    assert [] + (field + after) == field + after;
    Visible(rd.data, rd.end, rd.off, rd.bitCount, rd.bitStream, field + after, |field|);
    assert (field + after)[..|field|] == field;
  }

  lemma SameThreshold(rem: nat, threshold: nat, nb: nat)
    requires rem >= 2 && nb == BitLen(rem) && nb >= 1 && threshold == Pow2(nb - 1)
    ensures 2 <= threshold <= rem < 2 * threshold
  {
    FieldSizes(rem);
  }

  /**
   Reads the counts. The header of some counts is read as these counts if and only if there are four bytes to look at and
   nothing in it is hidden.
   */
  method ReadNCount(data: seq<Byte>, off0: nat, maxSymbol: nat, ghost norm0: seq<int>, ghost log0: nat)
    returns (r: Result<(seq<int>, nat, nat)>)
    requires off0 <= |data| && maxSymbol <= 255
    ensures r.Ok? ==>
              var (norm, log, off) := r.value;
              5 <= log <= 9 && Counts(norm) && Total(norm) == Pow2(log) && 2 <= |norm| <= 256
    ensures IsHeader(data, off0, norm0, log0) && 2 <= Used(norm0, 0) <= maxSymbol + 1 ==>
              (r == Ok((norm0[..Used(norm0, 0)], log0, off0 + (|HeaderBits(norm0, log0)| + 7) / 8)) <==>
               |data| - off0 >= 4 && !Blind(norm0, 0, false, 8 * off0 + 4, |data|))
    ensures |data| - off0 < 4 ==> r.Err?
  {
    hide BytesBits, Little, BitsOf, Shr, Low, Pow2, CountBits, TotalFrom, Total, InWindow, BitLen, Used, HeaderBits, Blind;
    if |data| - off0 < 4 {
      return Err(CorruptStream);
    }
    ghost var true0 := IsHeader(data, off0, norm0, log0) && 2 <= Used(norm0, 0) <= maxSymbol + 1;
    ghost var blind := true0 && Blind(norm0, 0, false, 8 * off0 + 4, |data|);
    ghost var track := true0;
    var rd, log := OpenHeader(data, off0, norm0, log0, true0);
    if log > 9 {
      return Err(BadTable);
    }
    LogFits(log);
    NoCounts();
    if true0 { AllCells(norm0); }
    var remaining: nat, threshold, nbBits := Pow2(log) + 1, Pow2(log), log + 1;
    var norm: seq<int>, previous0 := [], false;
    while remaining > 1 && |norm| <= maxSymbol
      invariant fresh(rd) && rd.Valid() && rd.data == data && (|data| - rd.off >= 7 ==> rd.bitCount < 8)
      invariant |norm| <= 256 && Counts(norm) && Total(norm) + remaining == Pow2(log) + 1 && remaining >= 1
      invariant nbBits == BitLen(remaining) && 1 <= nbBits <= 10 && threshold == Pow2(nbBits - 1)
      invariant track ==> true0 && OnHeader(rd, norm0, norm, remaining, previous0)
      invariant track ==> (blind <==> Blind(norm0, |norm|, previous0, 8 * rd.off + rd.bitCount, |data|))
      invariant true0 && !track ==> blind && !(norm <= norm0)
      decreases 256 - |norm|
    {
      ghost var before := norm;
      var ok;
      ok, norm, remaining, previous0 := ReadOne(rd, norm, remaining, previous0, threshold, nbBits, norm0, track);
      if !ok {
        return Err(CorruptStream);
      }
      if !track && norm <= norm0 { assert before <= norm0; }
      track := track && norm <= norm0;
      threshold, nbBits := Lower(remaining, threshold, nbBits);
    }
    if track {
      HeaderEnds(rd, norm0, norm, remaining, previous0, maxSymbol);
      NothingMore(norm0, |norm|, previous0, 8 * rd.off + rd.bitCount, |data|);
    }
    assert true0 ==> norm0[..Used(norm0, 0)] <= norm0;
    if |norm| <= 1 {
      return Err(CorruptStream);
    }
    if remaining != 1 {
      return Err(CorruptStream);
    }
    if rd.bitCount > 32 {
      return Err(CorruptStream);
    }
    return Ok((norm, log, rd.off + (rd.bitCount + 7) / 8));
  }

  lemma NothingMore(norm: seq<int>, k: nat, previous0: bool, p: nat, size: nat)
    requires Counts(norm) && k <= |norm| && TotalFrom(norm, k) == 0
    ensures !Blind(norm, k, previous0, p, size)
  {
  }

  lemma NoCounts()
    ensures Total([]) == 0 && Counts([])
  {
  }

  /** When a true header is read to its end, all of it is used. */
  lemma HeaderEnds(rd: CountReader, norm0: seq<int>, norm: seq<int>, remaining: nat, previous0: bool, maxSymbol: nat)
    requires OnHeader(rd, norm0, norm, remaining, previous0) && Used(norm0, 0) <= maxSymbol + 1
    requires remaining <= 1 || |norm| > maxSymbol
    ensures remaining == 1 && |norm| == Used(norm0, 0) && 8 * rd.off + rd.bitCount == rd.end && rd.bitCount <= 32
    ensures TotalFrom(norm0, |norm|) == 0
  {
    hide BytesBits, Little, Shr, TotalFrom, Used;
    if remaining > 1 {
      UsedAfter(norm0, 0, |norm|);
      assert false;
    }
    UsedIs(norm0, 0, |norm|);
    NoMoreBits(norm0, |norm|, previous0);
  }
}
