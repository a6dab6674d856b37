/** Complete headers of counts that the reader does not read, because nothing follows them. */
module FseCutHeaders {
  import opened Bits
  import opened Results
  import opened BitStream
  import opened FseSpread
  import FseCoding
  import opened FseCount
  import opened FseCountReader

  /** Sixteen cells for each of two symbols, in two bytes. */
  const EVEN: seq<int> := [16, 16]
  const EVEN_HEADER: seq<Byte> := [0x10, 0x3f]

  /** Two symbols far apart, in six bytes: the run of zeros between them starts in the second. */
  const APART: seq<int> := [18, 0] + None(42) + [14]
  const APART_HEADER: seq<Byte> := [0x30, 0xe3, 0xff, 0xff, 0xff, 0x79]

  function None(n: nat): (s: seq<int>)
    ensures |s| == n && forall i :: 0 <= i < n ==> s[i] == 0
  {
    seq(n, _ => 0)
  }

  /** A field by its parts, which are plain numbers. */
  lemma FieldBits(c: nat, rem: nat, threshold: nat, nb: nat, bits: seq<Bit>)
    requires 2 <= threshold <= rem < 2 * threshold && c <= rem && nb >= 1 && threshold == Pow2(nb - 1)
    requires var c' := if c >= threshold then c + 2 * threshold - 1 - rem else c;
             |bits| == (if c' < 2 * threshold - 1 - rem then nb - 1 else nb) && bits == BitsOf(c', |bits|)
    ensures Field(c, rem) == bits
  {
    hide BitsOf, Pow2, BitLen;
    FseCoding.BitLenIs(rem, nb - 1);
    FieldIs(c, rem, threshold, nb);
  }

  lemma FiveBits(x: nat)
    requires x < 32
    ensures BitsOf(x, 5) == [x % 2, x / 2 % 2, x / 4 % 2, x / 8 % 2, x / 16 % 2]
  {
    hide BitsOf;
    FourBits(x);
    BitsConcat(x, 4, 1);
    HighBits(x);
    OneBit(x / 16);
  }

  lemma OneBit(x: nat)
    ensures BitsOf(x, 1) == [x % 2]
  {
    assert BitsOf(x / 2, 0) == [];
  }

  lemma Powers()
    ensures Pow2(3) == 8 && Pow2(4) == 16 && Pow2(5) == 32
  {
  }

  lemma EvenFields()
    ensures Field(17, 33) == [1, 0, 0, 0, 1] && Field(17, 17) == [1, 1, 1, 1, 1]
  {
    hide BitsOf, Field, Pow2;
    Powers();
    FiveBits(17);
    FieldBits(17, 33, 32, 6, [1, 0, 0, 0, 1]);
    FiveBits(31);
    FieldBits(17, 17, 16, 5, [1, 1, 1, 1, 1]);
  }

  lemma EvenTotals()
    ensures TotalFrom(EVEN, 2) == 0 && TotalFrom(EVEN, 1) == 16 && TotalFrom(EVEN, 0) == 32 && Total(EVEN) == 32 && Used(EVEN, 0) == 2
  {
    AllCells(EVEN);
    UsedIs(EVEN, 0, 2);
  }

  lemma EvenBits()
    ensures HeaderBits(EVEN, 5) == [0, 0, 0, 0] + [1, 0, 0, 0, 1] + [1, 1, 1, 1, 1]
  {
    hide Field, TotalFrom, BitsOf, CountBits;
    EvenFields();
    EvenTotals();
    ZeroBits(4);
    NoMoreBits(EVEN, 2, false);
    CountBitsStep(EVEN, 1, false);
    CountBitsStep(EVEN, 0, false);
  }

  /** The bits of one byte after those of others. */
  lemma OneMore(front: seq<Byte>, b: Byte)
    ensures BytesBits(front + [b]) == BytesBits(front) + BitsOf(b, 8)
  {
    assert (front + [b])[..|front|] == front;
  }

  lemma EvenIsHeader()
    ensures IsHeader(EVEN_HEADER, 0, EVEN, 5) && Used(EVEN, 0) == 2 && |HeaderBits(EVEN, 5)| == 14
  {
    hide BytesBits, HeaderBits, Total, TotalFrom, Used, BitsOf;
    EvenBits();
    EvenTotals();
    OneMore([], 0x10);
    OneMore([0x10], 0x3f);
    NoBytes();
    ByteBits(0x10);
    ByteBits(0x3f);
    assert [] + [0x10] == [0x10] && [0x10] + [0x3f] == EVEN_HEADER;
    assert BytesBits(EVEN_HEADER) == BitsOf(0x10, 8) + BitsOf(0x3f, 8);
    assert Pow2(5) == 32;
    assert BytesBits(EVEN_HEADER)[0..14] == HeaderBits(EVEN, 5);
  }

  lemma ByteBits(b: Byte)
    ensures BitsOf(b, 8) == [b % 2, b / 2 % 2, b / 4 % 2, b / 8 % 2, b / 16 % 2, b / 32 % 2, b / 64 % 2, b / 128 % 2]
  {
    hide BitsOf, Shr;
    FourBits(b);
    FourBits(b / 16);
    BitsConcat(b, 4, 4);
    HighBits(b);
  }

  lemma HighBits(b: nat)
    ensures Shr(b, 4) == b / 16 && b / 16 / 2 == b / 32 && b / 16 / 4 == b / 64 && b / 16 / 8 == b / 128
  {
    hide Shr;
    ShrFour(b / 4, 0);
    ShrFour(b, 2);
    assert Shr(b / 16, 0) == b / 16 by { ShrNone(b / 16); }
    assert b / 4 / 4 == b / 16;
  }

  lemma ShrNone(x: nat)
    ensures Shr(x, 0) == x
  {
  }

  lemma FourBits(x: nat)
    ensures BitsOf(x, 4) == [x % 2, x / 2 % 2, x / 4 % 2, x / 8 % 2]
  {
    assert BitsOf(x / 8, 1) == [x / 8 % 2] + BitsOf(x / 8 / 2, 0);
    assert BitsOf(x / 4, 2) == [x / 4 % 2] + BitsOf(x / 4 / 2, 1);
    assert BitsOf(x / 2, 3) == [x / 2 % 2] + BitsOf(x / 2 / 2, 2);
    assert x / 2 / 2 == x / 4 && x / 4 / 2 == x / 8;
  }

  lemma {:induction false} ApartTotal(k: nat)
    requires 1 <= k <= 44
    ensures Counts(APART) && TotalFrom(APART, k) == 14
    decreases 44 - k
  {
    if k < 44 { ApartTotal(k + 1); } else { assert TotalFrom(APART, 45) == 0; }
  }

  lemma ApartTotals()
    ensures TotalFrom(APART, 0) == 32 && Total(APART) == 32 && TotalFrom(APART, 45) == 0 && Used(APART, 0) == 45
  {
    ApartTotal(1);
    assert TotalFrom(APART, 0) == 18 + TotalFrom(APART, 1);
    AllCells(APART);
    forall i | 0 <= i < 45
      ensures TotalFrom(APART, i) > 0
    {
      if i > 0 { ApartTotal(i); }
    }
    UsedIs(APART, 0, 45);
  }

  lemma ApartFields()
    ensures Field(19, 33) == [1, 1, 0, 0, 1] && Field(1, 15) == [1, 0, 0, 0] && Field(15, 15) == [1, 1, 1, 1]
  {
    hide BitsOf, Field, Pow2;
    Powers();
    FiveBits(19);
    FieldBits(19, 33, 32, 6, [1, 1, 0, 0, 1]);
    FourBits(1);
    FieldBits(1, 15, 8, 4, [1, 0, 0, 0]);
    FourBits(15);
    FieldBits(15, 15, 8, 4, [1, 1, 1, 1]);
  }

  /** The run of zeros and the last count, which begin thirteen bits after the start. */
  function ApartItem(): seq<Bit> { OneBits(28) + [0, 0] + [1, 1, 1, 1] }

  /** All that can be hidden is in them. */
  lemma ApartBits(p: nat, size: nat)
    ensures Counts(APART) && CountBits(APART, 0, false) == [1, 1, 0, 0, 1] + [1, 0, 0, 0] + ApartItem()
    ensures Blind(APART, 0, false, p, size) <==> Hidden(p + 9, ApartItem(), size)
  {
    hide Field, TotalFrom, BitsOf, CountBits, ZeroRun, Hidden, Blind;
    ApartFields();
    ApartTotals();
    ApartTotal(1);
    ApartTotal(2);
    ApartTotal(44);
    var i0, run0, field0, after0 := HeaderStep(APART, 0, false, p, size);
    var i1, run1, field1, after1 := HeaderStep(APART, 1, false, p + 5, size);
    var i2, run2, field2, after2 := HeaderStep(APART, 2, true, p + 9, size);
    assert i2 == 44;
    NoMoreBits(APART, 45, false);
    NothingMore(APART, 45, false, p + 9 + |run2 + field2|, size);
    Pairs(42, 14);
    LastZeros(0);
    ZeroBits(2);
    assert run2 + field2 == ApartItem();
    assert |run0 + field0| == 5 && |run1 + field1| == 4;
  }

  lemma ApartBytes()
    ensures BytesBits(APART_HEADER) == [0, 0, 0, 0] + [1, 1, 0, 0, 1] + [1, 0, 0, 0] + ApartItem() + [0]
  {
    hide BytesBits, BitsOf;
    var s := APART_HEADER;
    NoBytes();
    ByteBits(0x30);
    ByteBits(0xe3);
    ByteBits(0xff);
    ByteBits(0x79);
    OneMore([], s[0]);
    OneMore(s[..1], s[1]);
    OneMore(s[..2], s[2]);
    OneMore(s[..3], s[3]);
    OneMore(s[..4], s[4]);
    OneMore(s[..5], s[5]);
    assert [] + [s[0]] == s[..1] && s[..1] + [s[1]] == s[..2] && s[..2] + [s[2]] == s[..3] && s[..3] + [s[3]] == s[..4];
    assert s[..4] + [s[4]] == s[..5] && s[..5] + [s[5]] == s;
  }

  /** A run that is read in the fifth byte from the end, with ones in the last. */
  lemma ApartIsHeader()
    ensures IsHeader(APART_HEADER, 0, APART, 5) && Used(APART, 0) == 45 && |HeaderBits(APART, 5)| == 47
    ensures Blind(APART, 0, false, 4, |APART_HEADER|)
  {
    hide BytesBits, BitsOf, CountBits, Total, TotalFrom, Used, Hidden, Blind;
    ApartBits(4, 6);
    ApartTotals();
    ApartBytes();
    ZeroBits(4);
    assert Pow2(5) == 32;
    ApartHidden();
    assert BytesBits(APART_HEADER)[0..47] == HeaderBits(APART, 5);
  }

  lemma ApartHidden()
    ensures Hidden(13, ApartItem(), 6)
  {
    assert ApartItem()[27] == 1;
  }

  lemma ApartLonger(b: Byte)
    ensures IsHeader(APART_HEADER + [b], 0, APART, 5) && !Blind(APART, 0, false, 4, 7)
  {
    hide BytesBits, HeaderBits, Used, Blind, Total;
    ApartIsHeader();
    ByteBehind(APART, 5, 0, 7);
    OneMore(APART_HEADER, b);
    assert BytesBits(APART_HEADER + [b])[0..47] == BytesBits(APART_HEADER)[0..47];
  }

  /** Neither header is read when nothing follows it, and the second is when anything does. */
  method ReadCut(b: Byte) returns (even: Result<(seq<int>, nat, nat)>, apart: Result<(seq<int>, nat, nat)>, more: Result<(seq<int>, nat, nat)>)
    ensures IsHeader(EVEN_HEADER, 0, EVEN, 5) && even.Err?
    ensures IsHeader(APART_HEADER, 0, APART, 5)
    ensures apart != Ok((APART, 5, 6)) && more == Ok((APART, 5, 6))
  {
    hide BytesBits, HeaderBits, Used, Blind, IsHeader, Total;
    EvenIsHeader();
    ApartIsHeader();
    ApartLonger(b);
    assert APART[..45] == APART;
    even := ReadNCount(EVEN_HEADER, 0, 255, EVEN, 5);
    apart := ReadNCount(APART_HEADER, 0, 255, APART, 5);
    more := ReadNCount(APART_HEADER + [b], 0, 255, APART, 5);
  }
}
