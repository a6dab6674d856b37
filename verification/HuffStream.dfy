/** A stream of Huffman codes, written from the last byte to the first and read from the first to the last. */
module HuffStream {
  import opened Bits
  import opened Results
  import opened BitStream
  import opened HuffCodes
  import opened HuffTables
  import SequenceDecoder

  /** The codes fit their lengths, and no length is above m. */
  predicate CodesOk(codes: seq<CTableEntry>, m: nat)
  {
    forall s :: 0 <= s < |codes| && codes[s].nBits >= 1 ==> codes[s].nBits <= m && codes[s].val < Pow2(codes[s].nBits)
  }

  /** Every symbol of the text has a code. */
  predicate Writable(codes: seq<CTableEntry>, src: seq<nat>)
  {
    forall i :: 0 <= i < |src| ==> src[i] < |codes| && codes[src[i]].nBits >= 1
  }

  /** The codes of a text, the first one last. */
  function CodeBits(codes: seq<CTableEntry>, src: seq<nat>, k: nat): seq<Bit>
    requires Writable(codes, src) && k <= |src|
    decreases |src| - k
  {
    if k == |src| then [] else CodeBits(codes, src, k + 1) + BitsOf(codes[src[k]].val, codes[src[k]].nBits)
  }

  // ----- writing -----

  method EncSymbol(bw: BitWriter, codes: seq<CTableEntry>, m: nat, ghost src: seq<nat>, ghost k: nat, s: nat)
    requires bw.Valid() && CodesOk(codes, m) && Writable(codes, src) && k < |src| && s == src[k] && bw.nBits + m <= 64
    requires bw.Added() == CodeBits(codes, src, k + 1)
    modifies bw
    ensures bw.Valid() && bw.nBits <= old(bw.nBits) + m && bw.start == old(bw.start) && bw.out == old(bw.out)
    ensures bw.Added() == CodeBits(codes, src, k)
  {
    hide Pow2, BitsOf, BytesBits;
    bw.AddClean(codes[s].val, codes[s].nBits);
  }

  /** Four symbols; with long codes there is another flush in between. */
  method EncFour(bw: BitWriter, codes: seq<CTableEntry>, m: nat, src: seq<nat>, n: nat)
    requires bw.Valid() && bw.nBits < 64 && CodesOk(codes, m) && Writable(codes, src) && m <= TABLE_LOG_MAX && n + 4 <= |src|
    requires bw.Added() == CodeBits(codes, src, n + 4)
    modifies bw
    ensures bw.Valid() && bw.nBits < 64 && bw.start == old(bw.start) && bw.out[..bw.start] == old(bw.out[..bw.start])
    ensures bw.Added() == CodeBits(codes, src, n)
  {
    hide Pow2, BitsOf, BytesBits, CodeBits, CodesOk, Writable;
    bw.Flush32();
    EncSymbol(bw, codes, m, src, n + 3, Nth(codes, src, n + 3));
    EncSymbol(bw, codes, m, src, n + 2, Nth(codes, src, n + 2));
    if m > 8 {
      bw.Flush32();
    }
    EncSymbol(bw, codes, m, src, n + 1, Nth(codes, src, n + 1));
    EncSymbol(bw, codes, m, src, n, Nth(codes, src, n));
  }

  function Nth(codes: seq<CTableEntry>, src: seq<nat>, k: nat): (s: nat)
    requires Writable(codes, src) && k < |src|
    ensures s == src[k] && s < |codes| && codes[s].nBits >= 1
  {
    src[k]
  }

  /** The text from its end: the odd bytes first, then four at a time, with room for two or for all four codes after a flush. */
  method Compress1X(codes: seq<CTableEntry>, m: nat, src: seq<nat>, dst: seq<Byte>) returns (out: seq<Byte>)
    requires CodesOk(codes, m) && Writable(codes, src) && m <= TABLE_LOG_MAX
    ensures dst <= out && Closed(CodeBits(codes, src, 0), out[|dst|..])
  {
    hide Pow2, BitsOf, BytesBits, CodeBits, Closed, CodesOk, Writable;
    var bw := new BitWriter(dst);
    var n := |src| - |src| % 4;
    EndOfText(codes, src);
    var i := |src| % 4;
    while i > 0
      invariant 0 <= i <= |src| % 4
      invariant bw.Valid() && bw.nBits + i * m <= 3 * m && bw.start == |dst| && bw.out[..bw.start] == dst && fresh(bw)
      invariant bw.Added() == CodeBits(codes, src, n + i)
    {
      OneLess(i, m);
      EncSymbol(bw, codes, m, src, n + i - 1, Nth(codes, src, n + i - 1));
      i := i - 1;
    }
    while n > 0
      invariant 0 <= n <= |src| && n % 4 == 0
      invariant bw.Valid() && bw.nBits < 64 && bw.start == |dst| && bw.out[..bw.start] == dst && fresh(bw)
      invariant bw.Added() == CodeBits(codes, src, n)
    {
      n := n - 4;
      EncFour(bw, codes, m, src, n);
    }
    bw.Close();
    out := bw.out;
  }

  lemma OneLess(i: int, m: nat)
    ensures i * m == (i - 1) * m + m
  {
  }

  lemma EndOfText(codes: seq<CTableEntry>, src: seq<nat>)
    requires Writable(codes, src)
    ensures CodeBits(codes, src, |src|) == []
  {
  }

  // ----- reading -----

  /** A reader whose next bit is the highest of its container. */
  class ShiftedReader {
    var inp: seq<Byte>
    var off: nat
    var value: nat
    var bitsRead: nat

    /** The container holds nothing below the bits not read yet, and nothing at all when too many were read. */
    ghost predicate Valid()
      reads this
    {
      && off <= |inp| && value < Pow2(64) && bitsRead < 256
      && (bitsRead <= 64 ==> value == Shl(Shr(value, bitsRead), bitsRead))
      && (bitsRead > 64 ==> off == 0 && value == 0)
    }

    ghost predicate Clean()
      reads this
    {
      Valid() && bitsRead <= 64
    }

    ghost function Rest(): (s: seq<Bit>)
      requires Clean()
      reads this
    {
      BytesBits(inp[..off]) + BitsOf(Shr(value, bitsRead), 64 - bitsRead)
    }

    constructor ()
    {
      inp, off, value, bitsRead := [], 0, 0, 64;
    }

    /** Takes k bytes into the container, below the bits that are there. */
    method Load(k: nat)
      requires Clean() && k <= off && 8 * k <= bitsRead
      modifies this
      ensures Clean() && inp == old(inp) && off == old(off) - k && bitsRead == old(bitsRead) - 8 * k && Rest() == old(Rest())
    {
      hide Pow2, BitsOf, BytesBits, Little, Low, Shr;
      var w := inp[off - k..off];
      assert inp[..off] == inp[..off - k] + w;
      BytesConcat(inp[..off - k], w);
      LittleBits(w);
      ghost var c := Shr(value, bitsRead);
      BitsAppend(Little(w), 8 * k, c, 64 - bitsRead);
      Below(value, bitsRead, Little(w), 8 * k);
      value := value + Shl(Little(w), bitsRead - 8 * k);
      off := off - k;
      bitsRead := bitsRead - 8 * k;
    }

    /** Putting j bits below the ones in the container. */
    static lemma Below(value: nat, b: nat, w: nat, j: nat)
      requires value < Pow2(64) && b <= 64 && j <= b && w < Pow2(j) && value == Shl(Shr(value, b), b)
      ensures var v := value + Shl(w, b - j);
              v < Pow2(64) && Shr(v, b - j) == w + Shr(value, b) * Pow2(j) && v == Shl(Shr(v, b - j), b - j)
    {
      hide Pow2, Shr, Low;
      var c := Shr(value, b);
      Pow2Add(b - j, j);
      var p, q := Pow2(b - j), Pow2(j);
      assert (w + c * q) * p == w * p + c * (p * q) by { Spread(w, c, p, q); }
      ShrOfShl(w + c * q, b - j, 0);
      Pow2Add(64 - b, b);
      ContainerBelow(c, w, p, q, Pow2(64 - b));
    }

    static lemma Spread(w: nat, c: nat, p: nat, q: nat)
      ensures (w + c * q) * p == w * p + c * (p * q)
    {
      assert (w + c * q) * p == w * p + (c * q) * p;
      assert (c * q) * p == c * (p * q);
    }

    static lemma ContainerBelow(c: nat, w: nat, p: nat, q: nat, r: nat)
      requires c * (p * q) < r * (p * q) && w < q && p >= 1
      ensures c * (p * q) + w * p < r * (p * q)
    {
      if c >= r { MulDifference(c, r, p * q); }
      MulStep(c, r, p * q);
      MulStep(w, q, p);
      assert q * p == p * q;
    }

    method FillFast()
      requires Clean() && (bitsRead < 32 || off >= 4)
      modifies this
      ensures Clean() && inp == old(inp) && bitsRead <= 32 && off + 4 >= old(off) && Rest() == old(Rest())
    {
      if bitsRead < 32 {
        return;
      }
      Load(4);
    }

    /** At least 32 bits, or all that are left. */
    method Fill()
      requires Valid()
      modifies this
      ensures Valid() && bitsRead <= old(bitsRead) && (bitsRead < 32 || off == 0 || bitsRead <= 32)
      ensures old(bitsRead) <= 64 ==> bitsRead <= 64 && inp == old(inp) && Rest() == old(Rest()) && (off == 0 || bitsRead <= 32)
      ensures old(bitsRead) > 64 ==> bitsRead == old(bitsRead)
    {
      hide Pow2, BitsOf, BytesBits, Shr;
      if bitsRead < 32 {
        return;
      }
      if off > 4 {
        Load(4);
        return;
      }
      while off > 0
        invariant Valid() && inp == old(inp) && off <= 4
        invariant old(bitsRead) <= 64 ==> 8 * off <= bitsRead <= 64 && Rest() == old(Rest())
        invariant old(bitsRead) > 64 ==> bitsRead == old(bitsRead) && off == 0
        invariant bitsRead <= old(bitsRead)
      {
        Load(1);
      }
    }

    /** The next n bits, zeros in place of missing ones. */
    function Peek(n: nat): (v: nat)
      requires Valid() && n <= 64
      reads this
      ensures v < Pow2(n)
    {
      PeekBelow(value, n);
      Shr(value, 64 - n)
    }

    static lemma PeekBelow(value: nat, n: nat)
      requires value < Pow2(64) && n <= 64
      ensures Shr(value, 64 - n) < Pow2(n)
    {
      hide Pow2, Shr, Low;
      ShrLow(value, 64 - n);
      Pow2Add(64 - n, n);
      BitWriter.QuotientBelow(Shr(value, 64 - n), Pow2(64 - n), Pow2(n));
    }

    /** Past n bits. */
    method Advance(n: nat)
      requires Valid() && n < 64 && (bitsRead + n > 64 ==> off == 0)
      modifies this
      ensures Valid() && inp == old(inp) && off == old(off) && bitsRead == (old(bitsRead) + n) % 256
      ensures old(bitsRead) + n <= 64 ==> |old(Rest())| >= n && Rest() == old(Rest())[..|old(Rest())| - n]
    {
      hide Pow2, BitsOf, BytesBits, Shr, Low;
      Shifted(value, bitsRead, n, BytesBits(inp[..off]));
      value := Low(Shl(value, n), 64);
      bitsRead := (bitsRead + n) % 256;
    }

    /** Shifting the container by n keeps it aligned; beyond its bits it becomes empty. */
    static lemma Shifted(value: nat, b: nat, n: nat, front: seq<Bit>)
      requires value < Pow2(64) && n < 64
      requires if b <= 64 then value == Shl(Shr(value, b), b) else value == 0
      ensures var v := Low(Shl(value, n), 64);
              && v < Pow2(64)
              && (b + n > 64 ==> v == 0)
              && (b + n <= 64 ==> v == Shl(Shr(v, b + n), b + n))
              && (v == 0 ==> forall k: nat :: Shl(Shr(v, k), k) == 0)
              && (b + n <= 64 ==> var s := front + BitsOf(Shr(value, b), 64 - b);
                                  s[..|s| - n] == front + BitsOf(Shr(v, b + n), 64 - (b + n)))
    {
      hide Pow2, BitsOf, Shr, Low;
      var v := Low(Shl(value, n), 64);
      ShrLow(Shl(value, n), 64);
      forall k: nat
        ensures Shl(Shr(0, k), k) == 0
      {
        ZeroShifts(k);
      }
      if b > 64 {
        ZeroLow(n);
      } else {
        var c := Shr(value, b);
        ShlTwice(c, b, n);
        if b + n > 64 {
          HighGone(c, b + n);
        } else {
          LowOfShl(c, b + n);
          BitsConcat(c, 64 - b - n, n);
          BitReader.BitsOfLow(c, 64 - b - n, 64 - b - n);
          var s := front + BitsOf(c, 64 - b);
          assert s[..|s| - n] == front + BitsOf(c, 64 - b - n);
        }
      }
    }

    static lemma {:induction false} ZeroShifts(k: nat)
      ensures Shl(Shr(0, k), k) == 0 && Shr(0, k) == 0
      decreases k
    {
      if k > 0 { ZeroShifts(k - 1); }
    }

    static lemma ZeroLow(n: nat)
      ensures Low(Shl(0, n), 64) == 0
    {
      hide Pow2, Shr, Low;
      ShrLow(0, 64);
      ZeroShifts(64);
      assert Shl(0, n) == 0;
    }

    static lemma ShlTwice(c: nat, b: nat, n: nat)
      ensures Shl(Shl(c, b), n) == Shl(c, b + n)
    {
      hide Pow2;
      Pow2Add(b, n);
      assert c * Pow2(b) * Pow2(n) == c * (Pow2(b) * Pow2(n));
    }

    /** Bits shifted out at the top are gone. */
    static lemma HighGone(c: nat, b: nat)
      requires b >= 64
      ensures Low(Shl(c, b), 64) == 0
    {
      hide Pow2, Shr, Low;
      Pow2Add(b - 64, 64);
      assert c * (Pow2(b - 64) * Pow2(64)) == (c * Pow2(b - 64)) * Pow2(64);
      ShrOfShl(c * Pow2(b - 64), 64, 0);
    }

    static lemma LowOfShl(c: nat, b: nat)
      requires b <= 64
      ensures Low(Shl(c, b), 64) == Shl(Low(c, 64 - b), b) && Shr(Shl(Low(c, 64 - b), b), b) == Low(c, 64 - b)
    {
      hide Pow2, Shr, Low;
      ShrLow(c, 64 - b);
      Pow2Add(b, 64 - b);
      var q, l := Shr(c, 64 - b), Low(c, 64 - b);
      assert (q * Pow2(64 - b) + l) * Pow2(b) == q * (Pow2(b) * Pow2(64 - b)) + l * Pow2(b) by { Spread(l, q, Pow2(b), Pow2(64 - b)); }
      MulStep(l, Pow2(64 - b), Pow2(b));
      assert Pow2(64 - b) * Pow2(b) == Pow2(b) * Pow2(64 - b);
      ShrOfShl(q, 64, l * Pow2(b));
      ShrShl(l, b);
    }

    /** Starts at the end mark. */
    method Init(input: seq<Byte>) returns (err: Option<Error>)
      modifies this
      ensures err == None <==> input != [] && input[|input| - 1] != 0
      ensures err == None ==> Clean() && inp == input && Closed(Rest(), input)
    {
      hide Pow2, BitsOf, BytesBits, BitLen, Closed, Shr;
      if |input| < 1 {
        return Some(CorruptStream);
      }
      var v := input[|input| - 1];
      if v == 0 {
        return Some(CorruptStream);
      }
      inp, off, bitsRead, value := input, |input|, 64, 0;
      ZeroShifts(64);
      BitReader.NothingRead(input);
      NoBitsLeft();
      if |input| >= 8 {
        Load(8);
      } else {
        Fill();
        Fill();
      }
      BitReader.TopByte(input, Rest());
      TopByteBits(v);
      Advance(8 - (BitLen(v) - 1));
      return None;
    }

    static lemma NoBitsLeft()
      ensures BitsOf(Shr(0, 64), 0) == BitsOf(0, 0) && 0 < Pow2(64)
    {
      ZeroShifts(64);
    }

    static lemma TopByteBits(v: Byte)
      requires v != 0
      ensures 1 <= BitLen(v) <= 8
    {
      hide Pow2, BitLen;
      PowersToByte();
      BitLenBound(v, 8);
      BitLenPositive(v);
    }

    /** Succeeds when every bit has been read. */
    method Close() returns (err: Option<Error>)
      requires Valid()
      modifies this
      ensures err == None <==> old(off) == 0 && old(bitsRead) == 64
    {
      inp := [];
      var remaining := off * 8 + (64 - bitsRead) % 256;
      if remaining > 0 {
        off := 0;
        return Some(ExtraBits);
      }
      if bitsRead > 64 {
        return Some(UnexpectedEof);
      }
      return None;
    }
  }

  // ----- decoding -----

  /** No entry a peek can reach takes more than m bits. */
  predicate TableSafe(dt: seq<DEntry>, m: nat)
  {
    |dt| == Pow2(TABLE_LOG_MAX) && m <= TABLE_LOG_MAX && forall u :: 0 <= u < |dt| && u < Pow2(m) ==> dt[u].nBits <= m
  }

  /** The table shows, for every symbol of the text, its length and itself in all index values that begin with its code. */
  ghost predicate Inverts(dt: seq<DEntry>, codes: seq<CTableEntry>, m: nat)
  {
    && |dt| >= Pow2(m) && CodesOk(codes, m)
    && forall s :: 0 <= s < |codes| && codes[s].nBits >= 1 ==>
         ShowsCode(dt, codes[s], m, s)
  }

  ghost predicate ShowsCode(dt: seq<DEntry>, c: CTableEntry, m: nat, s: nat)
  {
    c.nBits <= m && forall u: nat :: u < |dt| && u < Pow2(m) && Shr(u, m - c.nBits) == c.val ==> dt[u] == DEntry(c.nBits, s)
  }

  /** The table and the codes of one assignment of lengths fit each other. */
  lemma TablesInvert(dt: seq<DEntry>, codes: seq<CTableEntry>, lens: seq<nat>, m: nat)
    requires Complete(lens, m) && Shows(dt, lens, m, |lens|) && |codes| == |lens|
    requires forall s :: 0 <= s < |lens| ==> codes[s].nBits == lens[s] && (lens[s] >= 1 ==> codes[s].val == Code(lens, m, s))
    ensures Inverts(dt, codes, m)
    ensures |dt| == Pow2(TABLE_LOG_MAX) && m <= TABLE_LOG_MAX ==> TableSafe(dt, m)
  {
    hide Pow2, Shr, Low, RankStart, Level;
    PowersToByte();
    forall u | 0 <= u < |dt| && u < Pow2(m)
      ensures dt[u].nBits <= m
    {
      var s := Covered(lens, m, u);
      assert ShowsSymbol(dt, lens, m, s);
    }
    forall s | 0 <= s < |codes|
      ensures codes[s].nBits >= 1 ==> codes[s].nBits <= m && codes[s].val < Pow2(codes[s].nBits)
      ensures codes[s].nBits >= 1 ==> ShowsCode(dt, codes[s], m, s)
    {
      if lens[s] >= 1 {
        CodeIs(lens, m, s);
        forall u: nat | u < |dt| && u < Pow2(m) && Shr(u, m - lens[s]) == codes[s].val
          ensures dt[u] == DEntry(lens[s], s)
        {
          ShrLow(u, m - lens[s]);
          assert ShowsSymbol(dt, lens, m, s);
        }
      }
    }
  }

  /** The bits in front of the reader end with a code: it is the top of the container. */
  lemma CodeOnTop(br: ShiftedReader, front: seq<Bit>, c: CTableEntry, m: nat)
    requires br.Clean() && (br.off == 0 || br.bitsRead + m <= 64) && c.nBits <= m <= 64 && c.val < Pow2(c.nBits)
    requires br.Rest() == front + BitsOf(c.val, c.nBits)
    ensures br.bitsRead + c.nBits <= 64 && Shr(br.Peek(m), m - c.nBits) == c.val
    ensures br.Rest()[..|br.Rest()| - c.nBits] == front
  {
    hide Pow2, Shr, Low, BitsOf, BytesBits;
    var b, l, value := br.bitsRead, c.nBits, br.value;
    var k := 64 - b;
    NoBytesAhead(br);
    assert l <= k;
    var x := Shr(value, b);
    BitsConcat(x, k - l, l);
    var rest := br.Rest();
    assert rest[|rest| - l..] == BitsOf(Shr(x, k - l), l);
    assert rest[|rest| - l..] == BitsOf(c.val, l);
    NumBits(Shr(x, k - l), l);
    NumBits(c.val, l);
    ShrZero(c.val, l);
    ShrAdd(value, b, k - l);
    ShrAdd(value, 64 - m, m - l);
    ShiftedReader.PeekBelow(value, l);
    ShrZero(Shr(value, 64 - l), l);
  }

  lemma NoBytesAhead(br: ShiftedReader)
    requires br.Clean()
    ensures |br.Rest()| == 8 * br.off + 64 - br.bitsRead
  {
  }

  /** Whether the reader stands in front of the rest of a text. */
  ghost predicate Ahead(br: ShiftedReader, codes: seq<CTableEntry>, src: seq<nat>, k: nat)
    reads br
    requires Writable(codes, src)
  {
    br.Clean() && k <= |src| && br.Rest() == CodeBits(codes, src, k)
  }

  /** One symbol through the table. */
  method DecodeSymbol(br: ShiftedReader, dt: seq<DEntry>, m: nat, ghost codes: seq<CTableEntry>, ghost src: seq<nat>, ghost k: nat, ghost good: bool)
    returns (d: DEntry)
    requires br.Valid() && m <= TABLE_LOG_MAX && |dt| == Pow2(TABLE_LOG_MAX) && (br.bitsRead <= 64 - m || br.off == 0)
    requires TableSafe(dt, m)
    requires Writable(codes, src) && (good ==> Inverts(dt, codes, m) && Ahead(br, codes, src, k) && br.Rest() != [])
    modifies br
    ensures br.Valid() && br.off == old(br.off) && d.nBits <= m && br.bitsRead == (old(br.bitsRead) + d.nBits) % 256
    ensures good ==> k < |src| && d.symbol == src[k] && d.nBits >= 1 && old(br.bitsRead) + d.nBits <= 64 && Ahead(br, codes, src, k + 1) &&
                     |br.Rest()| == |old(br.Rest())| - d.nBits
  {
    hide Pow2, Shr, BitsOf, BytesBits, CodeBits, Inverts, CodesOk, ShowsCode;
    Pow2Mono(m, TABLE_LOG_MAX);
    var u := br.Peek(m);
    d := dt[u];
    if good {
      NextCode(codes, src, k);
      var c := codes[src[k]];
      InvertsFacts(dt, codes, m, src[k]);
      CodeOnTop(br, CodeBits(codes, src, k + 1), c, m);
      ShownIs(dt, c, m, src[k], u);
    }
    br.Advance(d.nBits);
  }

  lemma NextCode(codes: seq<CTableEntry>, src: seq<nat>, k: nat)
    requires Writable(codes, src) && k <= |src| && CodeBits(codes, src, k) != []
    ensures k < |src| && src[k] < |codes| && codes[src[k]].nBits >= 1
    ensures CodeBits(codes, src, k) == CodeBits(codes, src, k + 1) + BitsOf(codes[src[k]].val, codes[src[k]].nBits)
  {
  }

  lemma InvertsFacts(dt: seq<DEntry>, codes: seq<CTableEntry>, m: nat, s: nat)
    requires Inverts(dt, codes, m) && s < |codes| && codes[s].nBits >= 1
    ensures |dt| >= Pow2(m) && codes[s].nBits <= m && codes[s].val < Pow2(codes[s].nBits) && ShowsCode(dt, codes[s], m, s)
  {
  }

  lemma ShownIs(dt: seq<DEntry>, c: CTableEntry, m: nat, s: nat, u: nat)
    requires ShowsCode(dt, c, m, s) && u < |dt| && u < Pow2(m) && c.nBits <= m && Shr(u, m - c.nBits) == c.val
    ensures dt[u] == DEntry(c.nBits, s)
  {
  }

  /** Four symbols, two for each refill. */
  method DecodeFour(br: ShiftedReader, dt: seq<DEntry>, m: nat, ghost codes: seq<CTableEntry>, ghost src: seq<nat>, ghost k: nat, ghost good: bool)
    returns (four: seq<nat>)
    requires br.Clean() && br.off >= 8 && m <= TABLE_LOG_MAX && |dt| == Pow2(TABLE_LOG_MAX)
    requires TableSafe(dt, m)
    requires Writable(codes, src) && (good ==> Inverts(dt, codes, m) && Ahead(br, codes, src, k))
    modifies br
    ensures br.Clean() && |four| == 4
    ensures good ==> k + 4 <= |src| && four == src[k..k + 4] && Ahead(br, codes, src, k + 4)
  {
    hide Pow2, Shr, BitsOf, BytesBits, CodeBits, Inverts, Writable, ShiftedReader.Rest, TableSafe;
    br.FillFast();
    var a, b := DecodeTwo(br, dt, m, codes, src, k, good);
    NoBytesAhead(br);
    br.FillFast();
    var c, d := DecodeTwo(br, dt, m, codes, src, k + 2, good);
    four := [a, b, c, d];
  }

  method DecodeTwo(br: ShiftedReader, dt: seq<DEntry>, m: nat, ghost codes: seq<CTableEntry>, ghost src: seq<nat>, ghost k: nat, ghost good: bool)
    returns (a: nat, b: nat)
    requires br.Clean() && br.bitsRead <= 32 && TableSafe(dt, m) && Writable(codes, src)
    requires good ==> Inverts(dt, codes, m) && Ahead(br, codes, src, k)
    modifies br
    ensures br.Clean() && br.bitsRead <= old(br.bitsRead) + 2 * m && br.off == old(br.off)
    ensures good ==> k + 2 <= |src| && a == src[k] && b == src[k + 1] && Ahead(br, codes, src, k + 2)
  {
    hide Pow2, Shr, BitsOf, BytesBits, CodeBits, Inverts, Writable, ShiftedReader.Rest, TableSafe;
    SafeLog(dt, m);
    NoBytesAhead(br);
    var d0 := DecodeSymbol(br, dt, m, codes, src, k, good);
    NoBytesAhead(br);
    var d1 := DecodeSymbol(br, dt, m, codes, src, k + 1, good);
    return d0.symbol, d1.symbol;
  }

  lemma SafeLog(dt: seq<DEntry>, m: nat)
    requires TableSafe(dt, m)
    ensures m <= TABLE_LOG_MAX && |dt| == Pow2(TABLE_LOG_MAX)
  {
  }

  lemma FourMore(dst: seq<nat>, buf: seq<nat>, four: seq<nat>, src: seq<nat>)
    requires |four| == 4 && |dst| + |buf| + 4 <= |src| && dst + buf == src[..|dst| + |buf|] && four == src[|dst| + |buf|..|dst| + |buf| + 4]
    ensures dst + (buf + four) == src[..|dst| + |buf| + 4]
  {
    assert dst + (buf + four) == (dst + buf) + four;
  }

  /** The last bits, symbol by symbol. */
  method DecodeRest(br: ShiftedReader, dt: seq<DEntry>, m: nat, dst0: seq<nat>, maxDecodedSize: nat, ghost codes: seq<CTableEntry>, ghost src: seq<nat>, ghost good: bool)
    returns (r: Result<seq<nat>>)
    requires br.Clean() && br.off < 8 && m <= TABLE_LOG_MAX && |dt| == Pow2(TABLE_LOG_MAX) && |dst0| <= maxDecodedSize
    requires TableSafe(dt, m)
    requires Writable(codes, src)
    requires good ==> Inverts(dt, codes, m) && |src| <= maxDecodedSize && |dst0| <= |src| && dst0 == src[..|dst0|] && Ahead(br, codes, src, |dst0|)
    modifies br
    ensures good ==> r == Ok(src)
    ensures r.Ok? ==> |r.value| <= maxDecodedSize
  {
    hide Pow2, Shr, BitsOf, BytesBits, CodeBits, Inverts, Writable, ShiftedReader.Rest, TableSafe;
    NoBytesAhead(br);
    var bitsLeft: nat := (br.off * 8 + 64 - br.bitsRead) % 256;
    SmallRest(br.off, br.bitsRead);
    var dst := dst0;
    while bitsLeft > 0
      invariant br.Valid() && |dst| <= maxDecodedSize && bitsLeft < 256
      invariant good ==> |dst| <= |src| && dst == src[..|dst|] && Ahead(br, codes, src, |dst|) && bitsLeft == |br.Rest()|
      decreases maxDecodedSize - |dst|
    {
      if good { NextCode(codes, src, |dst|); }
      if |dst| >= maxDecodedSize {
        return Err(LimitReached);
      }
      var d := DecodeLast(br, dt, m, codes, src, |dst|, good);
      Wrap256(bitsLeft - d.nBits);
      bitsLeft := (bitsLeft - d.nBits) % 256;
      dst := dst + [d.symbol];
    }
    if good {
      NothingAhead(codes, src, |dst|);
      NoBytesAhead(br);
    }
    var err := br.Close();
    if err.Some? {
      return Err(CorruptStream);
    }
    return Ok(dst);
  }

  lemma SmallRest(off: nat, bitsRead: nat)
    requires off < 8 && bitsRead <= 64
    ensures (off * 8 + 64 - bitsRead) % 256 == off * 8 + 64 - bitsRead
  {
  }

  lemma Wrap256(x: int)
    ensures 0 <= x % 256 < 256 && (0 <= x < 256 ==> x % 256 == x)
  {
  }

  method DecodeLast(br: ShiftedReader, dt: seq<DEntry>, m: nat, ghost codes: seq<CTableEntry>, ghost src: seq<nat>, ghost k: nat, ghost good: bool)
    returns (d: DEntry)
    requires br.Valid() && TableSafe(dt, m) && Writable(codes, src)
    requires good ==> Inverts(dt, codes, m) && Ahead(br, codes, src, k) && br.Rest() != []
    modifies br
    ensures br.Valid() && d.nBits <= m
    ensures good ==> k < |src| && d.symbol == src[k] && Ahead(br, codes, src, k + 1) && |br.Rest()| == |old(br.Rest())| - d.nBits
  {
    hide Pow2, Shr, BitsOf, BytesBits, CodeBits, Inverts, Writable, ShiftedReader.Rest, TableSafe;
    SafeLog(dt, m);
    br.Fill();
    d := DecodeSymbol(br, dt, m, codes, src, k, good);
  }

  lemma NothingAhead(codes: seq<CTableEntry>, src: seq<nat>, k: nat)
    requires Writable(codes, src) && k <= |src| && CodeBits(codes, src, k) == []
    ensures k == |src| && src[..k] == src
  {
  }

  /** Decodes a stream whose end is the end of the input; on the stream of a text the table inverts, it gives back the text. */
  method Decompress1X(dt: seq<DEntry>, m: nat, input: seq<Byte>, maxDecodedSize: nat, ghost codes: seq<CTableEntry>, ghost src: seq<nat>)
    returns (r: Result<seq<nat>>)
    requires m <= TABLE_LOG_MAX && |dt| == Pow2(TABLE_LOG_MAX)
    requires TableSafe(dt, m)
    requires Writable(codes, src)
    ensures Inverts(dt, codes, m) && Closed(CodeBits(codes, src, 0), input) && |src| <= maxDecodedSize ==> r == Ok(src)
    ensures r.Ok? ==> |r.value| <= maxDecodedSize
  {
    hide Pow2, Shr, BitsOf, BytesBits, CodeBits, Inverts, CodesOk, ShowsCode, Closed, Writable, TableSafe;
    ghost var good := Inverts(dt, codes, m) && Closed(CodeBits(codes, src, 0), input) && |src| <= maxDecodedSize;
    var br := new ShiftedReader();
    var err := br.Init(input);
    if err.Some? {
      SequenceDecoder.SequenceDecs.NotClosed(input);
      return Err(CorruptStream);
    }
    if good { ClosedOnce(CodeBits(codes, src, 0), br.Rest(), input); }
    var dst: seq<nat>, buf: seq<nat> := [], [];
    while br.off >= 8
      invariant br.Clean() && fresh(br) && |buf| % 4 == 0 && |buf| < 256 && |dst| <= maxDecodedSize
      invariant good ==> |dst| + |buf| <= |src| && dst + buf == src[..|dst| + |buf|] && Ahead(br, codes, src, |dst| + |buf|)
      decreases maxDecodedSize + 256 - |dst| - |buf|
    {
      var four := DecodeFour(br, dt, m, codes, src, |dst| + |buf|, good);
      if good { FourMore(dst, buf, four, src); }
      buf := buf + four;
      if |buf| == 256 {
        if |dst| + 256 > maxDecodedSize {
          return Err(LimitReached);
        }
        dst, buf := dst + buf, [];
      }
    }
    if |dst| + |buf| > maxDecodedSize {
      return Err(LimitReached);
    }
    dst := dst + buf;
    r := DecodeRest(br, dt, m, dst, maxDecodedSize, codes, src, good);
  }
}
