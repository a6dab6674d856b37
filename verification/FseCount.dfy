/** The header that carries the normalised counts of an FSE table. */
module FseCount {
  import opened Bits
  import opened BitStream
  import opened FseSpread
  import opened FseCoding

  /** The cells of the symbols from k on. */
  function TotalFrom(norm: seq<int>, k: nat): nat
    requires Counts(norm) && k <= |norm|
    decreases |norm| - k
  {
    if k == |norm| then 0 else Weight(norm[k]) + TotalFrom(norm, k + 1)
  }

  lemma {:induction false} TotalSplit(norm: seq<int>, k: nat)
    requires Counts(norm) && k <= |norm|
    ensures Total(norm[..k]) + TotalFrom(norm, k) == Total(norm)
    decreases |norm| - k
  {
    if k == |norm| {
      assert norm[..k] == norm;
    } else {
      TotalSplit(norm, k + 1);
      assert norm[..k + 1][..k] == norm[..k];
    }
  }

  /** The next symbol with a count. */
  function SkipZeros(norm: seq<int>, k: nat): (k1: nat)
    requires Counts(norm) && k <= |norm| && TotalFrom(norm, k) > 0
    ensures k <= k1 < |norm| && norm[k1] != 0 && TotalFrom(norm, k1) == TotalFrom(norm, k)
    ensures forall i :: k <= i < k1 ==> norm[i] == 0
    decreases |norm| - k
  {
    if norm[k] != 0 then k else SkipZeros(norm, k + 1)
  }

  /** The symbols up to the last with a count. */
  function Used(norm: seq<int>, k: nat): (u: nat)
    requires Counts(norm) && k <= |norm|
    ensures k <= u <= |norm|
    decreases |norm| - k
  {
    if TotalFrom(norm, k) == 0 then k else Used(norm, k + 1)
  }

  // ----- the header as bits -----

  /** Room for one more count: a value from 0 to `rem`, in one bit less for the small ones. */
  function Field(c: nat, rem: nat): seq<Bit>
    requires 2 <= rem && c <= rem
  {
    var nb := BitLen(rem);
    var threshold := Pow2(nb - 1);
    FieldSizes(rem);
    var max := 2 * threshold - 1 - rem;
    var c' := if c >= threshold then c + max else c;
    BitsOf(c', if c' < max then nb - 1 else nb)
  }

  lemma FieldSizes(rem: nat)
    requires 2 <= rem
    ensures BitLen(rem) >= 2 && 2 <= Pow2(BitLen(rem) - 1) <= rem < 2 * Pow2(BitLen(rem) - 1)
  {
    hide Pow2;
    BitLenRange(rem);
    PowersToByte();
    if BitLen(rem) == 1 { assert false; }
    Pow2Mono(1, BitLen(rem) - 1);
    Pow2Next(0);
  }

  /** Zeros after a zero: three at a time as pairs of ones, the rest in two bits. */
  function ZeroRun(z: nat): seq<Bit>
    decreases z
  {
    if z >= 3 then [1, 1] + ZeroRun(z - 3) else BitsOf(z, 2)
  }

  function CountBits(norm: seq<int>, k: nat, previous0: bool): seq<Bit>
    requires Counts(norm) && k <= |norm|
    decreases |norm| - k
  {
    if TotalFrom(norm, k) == 0 then []
    else
      var k1 := if previous0 then SkipZeros(norm, k) else k;
      (if previous0 then ZeroRun(k1 - k) else []) + Field(norm[k1] + 1, 1 + TotalFrom(norm, k1)) + CountBits(norm, k1 + 1, norm[k1] == 0)
  }

  function HeaderBits(norm: seq<int>, log: nat): seq<Bit>
    requires Counts(norm) && log >= 5
  {
    BitsOf(log - 5, 4) + CountBits(norm, 0, false)
  }

  // ----- writing -----

  /** Bits waiting behind the bytes written so far. */
  class CountWriter {
    var out: seq<Byte>
    var bitStream: nat
    var bitCount: nat

    ghost predicate Valid()
      reads this
    {
      bitStream < Pow2(bitCount)
    }

    ghost function Written(): seq<Bit>
      reads this
    {
      BytesBits(out) + BitsOf(bitStream, bitCount)
    }

    constructor (v: nat, n: nat)
      requires v < Pow2(n)
      ensures Valid() && bitCount == n && Written() == BitsOf(v, n)
    {
      out, bitStream, bitCount := [], v, n;
    }

    method Add(v: nat, n: nat)
      requires Valid() && v < Pow2(n)
      modifies this
      ensures Valid() && bitCount == old(bitCount) + n && Written() == old(Written()) + BitsOf(v, n)
    {
      hide Pow2, BitsOf, BytesBits;
      BitsAppend(bitStream, bitCount, v, n);
      BitWriter.ContainerFits(bitStream, bitCount, v, n);
      bitStream, bitCount := bitStream + v * Pow2(bitCount), bitCount + n;
    }

    /** Moves two bytes out. */
    method Move()
      requires Valid() && bitCount >= 16
      modifies this
      ensures Valid() && bitCount == old(bitCount) - 16 && Written() == old(Written())
    {
      hide Pow2, BitsOf, BytesBits, BytesOf, Shr;
      BitWriter.MovedOut(out, bitStream, 2, bitCount);
      out := out + BytesOf(bitStream, 2);
      bitStream, bitCount := Shr(bitStream, 16), bitCount - 16;
    }

    method Finish() returns (r: seq<Byte>)
      requires Valid() && bitCount <= 16
      modifies this
      ensures |r| == (|old(Written())| + 7) / 8 && BytesBits(r) == old(Written()) + Zeros(8 * |r| - |old(Written())|)
    {
      hide Pow2, BitsOf, BytesBits, BytesOf, Shr, Low;
      var k := (bitCount + 7) / 8;
      BytesConcat(out, BytesOf(bitStream, k));
      BytesOfBits(bitStream, k);
      BitsConcat(bitStream, bitCount, 8 * k - bitCount);
      ShrZero(bitStream, bitCount);
      ZeroBits(8 * k - bitCount);
      r := out + BytesOf(bitStream, k);
    }
  }

  lemma Ones()
    ensures 3 < Pow2(2) && BitsOf(3, 2) == [1, 1] && 0xffff < Pow2(16)
  {
    hide Pow2;
    assert BitsOf(3, 2) == [1] + BitsOf(1, 1) && BitsOf(1, 1) == [1] + BitsOf(0, 0);
    PowersToByte();
    Pow2Next(0);
    Pow2Next(1);
    Pow2Add(8, 8);
  }

  function OneBits(n: nat): (s: seq<Bit>)
    ensures |s| == n && forall i :: 0 <= i < n ==> s[i] == 1
  {
    seq(n, _ => 1)
  }

  lemma {:induction false} Pairs(z: nat, k: nat)
    requires 3 * k <= z
    ensures ZeroRun(z) == OneBits(2 * k) + ZeroRun(z - 3 * k)
    decreases k
  {
    if k == 0 {
      assert OneBits(0) + ZeroRun(z) == ZeroRun(z);
    } else {
      Pairs(z - 3, k - 1);
      assert OneBits(2 * k) == [1, 1] + OneBits(2 * (k - 1));
      assert [1, 1] + OneBits(2 * (k - 1)) + ZeroRun(z - 3 * k) == [1, 1] + (OneBits(2 * (k - 1)) + ZeroRun(z - 3 * k));
    }
  }

  /** Eight pairs of ones are sixteen ones: twenty-four zeros. */
  lemma EightPairs(z: nat)
    requires z >= 24
    ensures ZeroRun(z) == BitsOf(0xffff, 16) + ZeroRun(z - 24)
  {
    hide BitsOf, Pow2, ZeroRun;
    Pairs(z, 8);
    PowersToByte();
    Pow2Add(8, 8);
    AllOnes(0xffff, 16);
    assert BitsOf(0xffff, 16) == OneBits(16);
  }

  lemma {:induction false} AllOnes(v: nat, n: nat)
    requires v + 1 == Pow2(n)
    ensures forall i :: 0 <= i < n ==> BitsOf(v, n)[i] == 1
    decreases n
  {
    if n > 0 {
      assert v % 2 == 1 && v / 2 + 1 == Pow2(n - 1);
      AllOnes(v / 2, n - 1);
    }
  }

  /** A run of zeros. */
  method WriteZeros(w: CountWriter, z0: nat)
    requires w.Valid() && w.bitCount <= 16
    modifies w
    ensures w.Valid() && w.bitCount <= 16 && w.Written() == old(w.Written()) + ZeroRun(z0)
  {
    hide Pow2, BitsOf, BytesBits, ZeroRun;
    Ones();
    var z := z0;
    while z >= 24
      invariant 0 <= z && w.Valid() && w.bitCount <= 16 && w.Written() + ZeroRun(z) == old(w.Written()) + ZeroRun(z0)
    {
      EightPairs(z);
      z := z - 24;
      w.Add(0xffff, 16);
      w.Move();
    }
    while z >= 3
      invariant 0 <= z < 24 && w.Valid() && w.bitCount + 2 * (z / 3) <= 30 && w.Written() + ZeroRun(z) == old(w.Written()) + ZeroRun(z0)
    {
      OnePair(z);
      z := z - 3;
      w.Add(3, 2);
    }
    LastZeros(z);
    w.Add(z, 2);
    if w.bitCount > 16 {
      w.Move();
    }
  }

  lemma OnePair(z: nat)
    requires z >= 3
    ensures ZeroRun(z) == [1, 1] + ZeroRun(z - 3)
  {
  }

  lemma LastZeros(z: nat)
    requires z < 3
    ensures ZeroRun(z) == BitsOf(z, 2) && z < Pow2(2)
  {
    PowersToByte();
    assert Pow2(2) == 2 * Pow2(1) && Pow2(1) == 2 * Pow2(0);
  }

  lemma LogFits(log: nat)
    requires 5 <= log <= 9
    ensures log - 5 < Pow2(4) && BitLen(Pow2(log) + 1) == log + 1
  {
    hide Pow2, BitLen;
    PowersToByte();
    Pow2Mono(1, log);
    Pow2Next(0);
    Pow2Next(1);
    Pow2Next(2);
    Pow2Next(3);
    BitLenIs(Pow2(log) + 1, log);
  }

  lemma AllCells(norm: seq<int>)
    requires Counts(norm)
    ensures TotalFrom(norm, 0) == Total(norm)
  {
    TotalSplit(norm, 0);
    assert norm[..0] == [];
  }

  lemma CountBitsStep(norm: seq<int>, k: nat, previous0: bool)
    requires Counts(norm) && k <= |norm| && TotalFrom(norm, k) > 0
    ensures k < |norm|
    ensures var k1 := if previous0 then SkipZeros(norm, k) else k;
            && TotalFrom(norm, k1) == TotalFrom(norm, k)
            && norm[k1] + 1 <= 1 + TotalFrom(norm, k1)
            && CountBits(norm, k, previous0) ==
               (if previous0 then ZeroRun(k1 - k) else []) + Field(norm[k1] + 1, 1 + TotalFrom(norm, k1)) + CountBits(norm, k1 + 1, norm[k1] == 0)
  {
    hide ZeroRun, Field;
  }

  /** What is left after a count. */
  lemma CellsLeft(norm: seq<int>, k: nat)
    requires Counts(norm) && k < |norm|
    ensures TotalFrom(norm, k) == TotalFrom(norm, k + 1) + Weight(norm[k]) && norm[k] >= -1
  {
  }

  /** What a field is: small values in one bit less, large ones moved up past the values that are told apart by one bit. */
  lemma FieldIs(c: nat, rem: nat, threshold: nat, nb: nat)
    requires 2 <= rem && c <= rem && nb == BitLen(rem) && nb >= 1 && threshold == Pow2(nb - 1)
    ensures 2 <= nb && 2 <= threshold <= rem < 2 * threshold
    ensures var max := 2 * threshold - 1 - rem;
            var c' := if c >= threshold then c + max else c;
            var n := if c' < max then nb - 1 else nb;
            Field(c, rem) == BitsOf(c', n) && c' < Pow2(n) && (c' == 1 <==> c == 1)
  {
    hide Pow2, BitLen, BitsOf;
    FieldSizes(rem);
    Pow2Next(nb - 1);
  }

  lemma Halved(nb: nat, rem: nat)
    requires nb >= 1 && 1 <= rem < Pow2(nb - 1)
    ensures nb >= 2 && Pow2(nb - 1) / 2 == Pow2(nb - 2) && rem < 2 * Pow2(nb - 2)
  {
    PowersToByte();
    assert Pow2(nb - 1) == 2 * Pow2(nb - 2);
  }

  lemma NoMoreBits(norm: seq<int>, k: nat, previous0: bool)
    requires Counts(norm) && k <= |norm| && TotalFrom(norm, k) == 0
    ensures CountBits(norm, k, previous0) == []
  {
  }

  /** Lowers the threshold to the remaining cells. */
  method Lower(remaining: nat, threshold0: nat, nbBits0: nat) returns (threshold: nat, nbBits: nat)
    requires 1 <= remaining < 2 * threshold0 && nbBits0 >= 1 && threshold0 == Pow2(nbBits0 - 1)
    ensures 1 <= nbBits <= nbBits0 && threshold == Pow2(nbBits - 1) && nbBits == BitLen(remaining)
  {
    hide Pow2, BitLen;
    threshold, nbBits := threshold0, nbBits0;
    while remaining < threshold
      invariant 1 <= nbBits <= nbBits0 && threshold == Pow2(nbBits - 1) && remaining < 2 * threshold
      decreases nbBits
    {
      Halved(nbBits, remaining);
      nbBits, threshold := nbBits - 1, threshold / 2;
    }
    BitLenIs(remaining, nbBits - 1);
  }

  /** Skips the zeros after a zero and writes how many there are. */
  method SkipTo(w: CountWriter, norm: seq<int>, start: nat, previous0: bool) returns (charnum: nat)
    requires w.Valid() && w.bitCount <= 16 && Counts(norm) && start <= |norm| && TotalFrom(norm, start) > 0
    modifies w
    ensures charnum == if previous0 then SkipZeros(norm, start) else start
    ensures w.Valid() && w.bitCount <= 16
    ensures w.Written() == old(w.Written()) + if previous0 then ZeroRun(charnum - start) else []
  {
    hide Pow2, BitsOf, BytesBits, TotalFrom, ZeroRun;
    charnum := start;
    if previous0 {
      ghost var k1 := SkipZeros(norm, start);
      while norm[charnum] == 0
        invariant start <= charnum <= k1
        decreases k1 - charnum
      {
        charnum := charnum + 1;
      }
      WriteZeros(w, charnum - start);
    } else {
      assert w.Written() + [] == w.Written();
    }
  }

  /** Writes one count. */
  method PutCount(w: CountWriter, norm: seq<int>, charnum: nat, rem: nat, threshold: nat, nbBits: nat) returns (remaining: nat, previous0: bool)
    requires w.Valid() && Counts(norm) && charnum < |norm| && rem == 1 + TotalFrom(norm, charnum) >= 2
    requires nbBits == BitLen(rem) && nbBits >= 1 && threshold == Pow2(nbBits - 1)
    modifies w
    ensures w.Valid() && w.bitCount <= old(w.bitCount) + nbBits && norm[charnum] + 1 <= rem
    ensures w.Written() == old(w.Written()) + Field(norm[charnum] + 1, rem)
    ensures remaining == 1 + TotalFrom(norm, charnum + 1) && remaining < 2 * threshold && (previous0 <==> norm[charnum] == 0)
  {
    hide Pow2, BitLen, BitsOf, BytesBits, TotalFrom, Field;
    CellsLeft(norm, charnum);
    var count := norm[charnum];
    FieldIs(count + 1, rem, threshold, nbBits);
    var max := (2 * threshold - 1) - rem;
    remaining := rem - (if count < 0 then -count else count);
    count := count + 1;
    if count >= threshold {
      count := count + max;
    }
    w.Add(count, if count < max then nbBits - 1 else nbBits);
    previous0 := count == 1;
  }

  /** Writes the header of the counts. */
  method WriteCount(norm: seq<int>, tableLog: nat) returns (r: seq<Byte>)
    requires Counts(norm) && 5 <= tableLog <= 9 && Total(norm) == Pow2(tableLog)
    ensures |r| == (|HeaderBits(norm, tableLog)| + 7) / 8
    ensures BytesBits(r) == HeaderBits(norm, tableLog) + Zeros(8 * |r| - |HeaderBits(norm, tableLog)|)
  {
    hide Pow2, BitsOf, BytesBits, CountBits, Total, TotalFrom, Field, BitLen, ZeroRun;
    LogFits(tableLog);
    AllCells(norm);
    var w := new CountWriter(tableLog - 5, 4);
    var charnum, previous0 := 0, false;
    var remaining: nat := Pow2(tableLog) + 1;
    var threshold, nbBits := Pow2(tableLog), tableLog + 1;
    while remaining > 1
      invariant 0 <= charnum <= |norm| && remaining == 1 + TotalFrom(norm, charnum)
      invariant nbBits == BitLen(remaining) && 1 <= nbBits <= 10 && threshold == Pow2(nbBits - 1)
      invariant w.Valid() && w.bitCount <= 16 && fresh(w)
      invariant w.Written() + CountBits(norm, charnum, previous0) == HeaderBits(norm, tableLog)
      decreases |norm| - charnum
    {
      CountBitsStep(norm, charnum, previous0);
      charnum := SkipTo(w, norm, charnum, previous0);
      remaining, previous0 := PutCount(w, norm, charnum, remaining, threshold, nbBits);
      charnum := charnum + 1;
      threshold, nbBits := Lower(remaining, threshold, nbBits);
      if w.bitCount > 16 {
        w.Move();
      }
    }
    NoMoreBits(norm, charnum, previous0);
    r := w.Finish();
  }
}
