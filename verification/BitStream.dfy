/** A stream of bits written from the front and read from the back. */
module BitStream {
  import opened Bits
  import opened Results

  // ----- numbers and bits, least significant first -----

  function BitsOf(v: nat, n: nat): (s: seq<Bit>)
    ensures |s| == n
    decreases n
  {
    if n == 0 then [] else [v % 2] + BitsOf(v / 2, n - 1)
  }

  function Num(s: seq<Bit>): (v: nat)
  {
    if s == [] then 0 else s[0] + 2 * Num(s[1..])
  }

  lemma {:induction false} NumBits(v: nat, n: nat)
    ensures Num(BitsOf(v, n)) == Low(v, n)
    decreases n
  {
    if n > 0 {
      NumBits(v / 2, n - 1);
      assert BitsOf(v, n)[1..] == BitsOf(v / 2, n - 1);
    }
  }

  lemma {:induction false} BitsConcat(v: nat, a: nat, b: nat)
    ensures BitsOf(v, a + b) == BitsOf(v, a) + BitsOf(Shr(v, a), b)
    decreases a
  {
    if a > 0 {
      BitsConcat(v / 2, a - 1, b);
      ShrHalf(v, a - 1);
    }
  }

  /** Only the low bits matter. */
  lemma {:induction false} BitsBelow(v: nat, w: nat, n: nat)
    ensures BitsOf(v + w * Pow2(n), n) == BitsOf(v, n)
    decreases n
  {
    if n > 0 {
      var p := Pow2(n - 1);
      assert w * (2 * p) == 2 * (w * p);
      var x := v + 2 * (w * p);
      assert x % 2 == v % 2 && x / 2 == v / 2 + w * p;
      BitsBelow(v / 2, w, n - 1);
    }
  }

  lemma BitsLow(v: nat, n: nat)
    ensures BitsOf(Low(v, n), n) == BitsOf(v, n)
  {
    hide Pow2, Shr, Low;
    ShrLow(v, n);
    BitsBelow(Low(v, n), Shr(v, n), n);
  }

  /** Appending a field above the bits that are there. */
  lemma BitsAppend(c: nat, n: nat, v: nat, k: nat)
    requires c < Pow2(n)
    ensures BitsOf(c + v * Pow2(n), n + k) == BitsOf(c, n) + BitsOf(v, k)
  {
    hide Pow2, Shr, Low, BitsOf;
    var x := c + v * Pow2(n);
    BitsConcat(x, n, k);
    BitsBelow(c, v, n);
    ShrLow(x, n);
    SameQuotient(v, c, Shr(x, n), Low(x, n), Pow2(n));
  }

  function BytesBits(out: seq<Byte>): (s: seq<Bit>)
    ensures |s| == 8 * |out|
  {
    if out == [] then [] else BytesBits(out[..|out| - 1]) + BitsOf(out[|out| - 1], 8)
  }

  lemma {:induction false} BytesConcat(a: seq<Byte>, b: seq<Byte>)
    ensures BytesBits(a + b) == BytesBits(a) + BytesBits(b)
    decreases |b|
  {
    hide BitsOf;
    if b == [] {
      assert a + b == a;
    } else {
      var front := b[..|b| - 1];
      assert (a + b)[..|a + b| - 1] == a + front;
      BytesConcat(a, front);
    }
  }

  /** The lowest k bytes of a number. */
  function BytesOf(v: nat, k: nat): (s: seq<Byte>)
    ensures |s| == k
    decreases k
  {
    if k == 0 then [] else [v % 256] + BytesOf(Shr(v, 8), k - 1)
  }

  lemma {:induction false} BytesOfBits(v: nat, k: nat)
    ensures BytesBits(BytesOf(v, k)) == BitsOf(v, 8 * k)
    decreases k
  {
    if k > 0 {
      BytesOfBits(Shr(v, 8), k - 1);
      BytesConcat([v % 256], BytesOf(Shr(v, 8), k - 1));
      BitsConcat(v, 8, 8 * (k - 1));
      LowByte(v);
      BitsLow(v, 8);
      assert [v % 256][..0] == [];
      assert BytesBits([v % 256]) == BitsOf(v % 256, 8);
    }
  }

  lemma LowByte(v: nat)
    ensures Low(v, 8) == v % 256
  {
    hide Shr, Pow2, Low;
    ShrLow(v, 8);
    PowersToByte();
  }

  // ----- the writer -----

  class BitWriter {
    var bitContainer: nat
    var nBits: nat
    var out: seq<Byte>
    /** Where the stream begins; what is before was in the output already. */
    ghost var start: nat

    ghost predicate Valid()
      reads this
    {
      nBits <= 64 && bitContainer < Pow2(nBits) && start <= |out|
    }

    /** All bits added so far. */
    ghost function Added(): (s: seq<Bit>)
      requires Valid()
      reads this
    {
      BytesBits(out[start..]) + BitsOf(bitContainer, nBits)
    }

    constructor (out_: seq<Byte>)
      ensures Valid() && nBits == 0 && out == out_ && start == |out_| && Added() == []
    {
      bitContainer, nBits, out := 0, 0, out_;
      start := |out_|;
    }

    /** Adds the low `bits` bits of `value`; the container must have room. */
    method AddBits(value: nat, bits: nat)
      requires Valid() && nBits + bits <= 64
      modifies this
      ensures Valid() && nBits == old(nBits) + bits && out == old(out) && start == old(start)
      ensures Added() == old(Added()) + BitsOf(value, bits)
    {
      hide Pow2, Low, BitsOf, BytesBits;
      ShrLow(value, bits);
      BitsLow(value, bits);
      AddClean(Low(value, bits), bits);
    }

    /** Adds a value without bits above the given number; shifted up, it shares no bit with the container. */
    method AddClean(value: nat, bits: nat)
      requires Valid() && nBits + bits <= 64 && value < Pow2(bits)
      modifies this
      ensures Valid() && nBits == old(nBits) + bits && out == old(out) && start == old(start)
      ensures Added() == old(Added()) + BitsOf(value, bits)
    {
      hide Pow2, BitsOf, BytesBits;
      BitsAppend(bitContainer, nBits, value, bits);
      ContainerFits(bitContainer, nBits, value, bits);
      bitContainer := bitContainer + value * Pow2(nBits);
      nBits := nBits + bits;
    }

    static lemma ContainerFits(c: nat, n: nat, v: nat, k: nat)
      requires c < Pow2(n) && v < Pow2(k)
      ensures c + v * Pow2(n) < Pow2(n + k)
    {
      hide Pow2;
      Pow2Add(n, k);
      MulStep(v, Pow2(k), Pow2(n));
      assert Pow2(n) * Pow2(k) == Pow2(k) * Pow2(n);
    }

    /** Adds up to 63 bits, moving 32 out on the way when there are more than 31. */
    method AddBits64(value: nat, bits: nat)
      requires Valid() && nBits < 32 && bits < 64 && value < Pow2(bits)
      modifies this
      ensures Valid() && nBits < 64 && Added() == old(Added()) + BitsOf(value, bits)
      ensures start == old(start) && out[..start] == old(out[..start])
    {
      hide Pow2, BitsOf, BytesBits, Low, Shr;
      if bits <= 31 {
        AddClean(value, bits);
        return;
      }
      BitsConcat(value, 32, bits - 32);
      ShrLow(value, 32);
      Pow2Add(32, bits - 32);
      QuotientBelow(Shr(value, 32), Pow2(32), Pow2(bits - 32));
      BitsLow(value, 32);
      AddClean(Low(value, 32), 32);
      Flush32();
      AddClean(Shr(value, 32), bits - 32);
    }

    /** Moves 32 bits out when there are that many: afterwards at least 32 more fit. */
    method Flush32()
      requires Valid() && nBits < 64
      modifies this
      ensures Valid() && nBits < 32 && nBits <= old(nBits) && Added() == old(Added())
      ensures start == old(start) && out[..start] == old(out[..start])
    {
      hide Pow2, BitsOf, BytesBits, BytesOf;
      if nBits < 32 {
        return;
      }
      MovedOut(out[start..], bitContainer, 4, nBits);
      assert (out + BytesOf(bitContainer, 4))[start..] == out[start..] + BytesOf(bitContainer, 4);
      out := out + BytesOf(bitContainer, 4);
      bitContainer, nBits := Shr(bitContainer, 32), nBits - 32;
    }

    static lemma MovedOut(out: seq<Byte>, c: nat, k: nat, n: nat)
      requires 8 * k <= n && c < Pow2(n)
      ensures BytesBits(out + BytesOf(c, k)) + BitsOf(Shr(c, 8 * k), n - 8 * k) == BytesBits(out) + BitsOf(c, n)
      ensures Shr(c, 8 * k) < Pow2(n - 8 * k)
    {
      hide Pow2, BitsOf, BytesBits, BytesOf, Shr, Low;
      BytesConcat(out, BytesOf(c, k));
      BytesOfBits(c, k);
      BitsConcat(c, 8 * k, n - 8 * k);
      ShrLow(c, 8 * k);
      Pow2Add(8 * k, n - 8 * k);
      QuotientBelow(Shr(c, 8 * k), Pow2(8 * k), Pow2(n - 8 * k));
    }

    static lemma QuotientBelow(q: nat, p: nat, r: nat)
      requires q * p < p * r
      ensures q < r
    {
      if q >= r { MulDifference(q, r, p); }
    }

    /** The end mark, then zeros up to the next byte. */
    method Close()
      requires Valid() && nBits < 64
      modifies this
      ensures start == old(start) <= |out| && out[..start] == old(out[..start])
      ensures Closed(old(Added()), out[start..])
    {
      hide Pow2, BitsOf, BytesBits, BytesOf, Low;
      OneBit();
      AddClean(1, 1);
      // flushAlign
      var nbBytes := (nBits + 7) / 8;
      Padded(old(Added()), out[start..], bitContainer, nBits, nbBytes);
      assert (out + BytesOf(bitContainer, nbBytes))[start..] == out[start..] + BytesOf(bitContainer, nbBytes);
      out := out + BytesOf(bitContainer, nbBytes);
      bitContainer, nBits := 0, 0;
    }

    static lemma OneBit()
      ensures Pow2(1) == 2 && BitsOf(1, 1) == [1]
    {
      assert Pow2(1) == 2 * Pow2(0);
      assert BitsOf(1, 1) == [1] + BitsOf(0, 0);
    }

    static lemma Padded(added: seq<Bit>, out: seq<Byte>, c: nat, n: nat, k: nat)
      requires c < Pow2(n) && n <= 8 * k < n + 8 && BytesBits(out) + BitsOf(c, n) == added + [1]
      ensures Closed(added, out + BytesOf(c, k))
    {
      hide Pow2, BitsOf, BytesOf, BytesBits, Shr;
      BytesConcat(out, BytesOf(c, k));
      BytesOfBits(c, k);
      BitsConcat(c, n, 8 * k - n);
      ShrZero(c, n);
      ZeroBits(8 * k - n);
      var z := Zeros(8 * k - n);
      assert BytesBits(out) + (BitsOf(c, n) + z) == (BytesBits(out) + BitsOf(c, n)) + z;
    }
  }

  function Zeros(n: nat): (s: seq<Bit>)
    ensures |s| == n && forall k :: 0 <= k < n ==> s[k] == 0
  {
    seq(n, _ => 0)
  }

  lemma {:induction false} ZeroBits(n: nat)
    ensures BitsOf(0, n) == Zeros(n)
    decreases n
  {
    if n > 0 {
      ZeroBits(n - 1);
      assert Zeros(n) == [0] + Zeros(n - 1);
    }
  }

  /** These bytes carry the bits, an end mark and fewer than eight zeros. */
  ghost predicate Closed(bits: seq<Bit>, out: seq<Byte>)
  {
    exists pad: nat :: pad < 8 && BytesBits(out) == bits + [1] + Zeros(pad)
  }

  /** The end mark is the last bit that is set. */
  lemma MarkAt(a: seq<Bit>, pad: nat, s: seq<Bit>)
    requires s == a + [1] + Zeros(pad)
    ensures |s| == |a| + 1 + pad && s[|s| - 1 - pad] == 1 && forall i :: |s| - 1 - pad < i < |s| ==> s[i] == 0
  {
  }

  lemma ClosedOnce(a: seq<Bit>, b: seq<Bit>, out: seq<Byte>)
    requires Closed(a, out) && Closed(b, out)
    ensures a == b
  {
    var m: nat :| m < 8 && BytesBits(out) == a + [1] + Zeros(m);
    var n: nat :| n < 8 && BytesBits(out) == b + [1] + Zeros(n);
    var s := BytesBits(out);
    MarkAt(a, m, s);
    MarkAt(b, n, s);
    assert m == n;
    assert a == s[..|s| - 1 - m] && b == s[..|s| - 1 - n];
  }

  // ----- the reader -----

  /** The last n bits as a number, and the bits before them. */
  function Pop(s: seq<Bit>, n: nat): Result<(nat, seq<Bit>)>
  {
    if |s| < n then Err(UnexpectedEof) else Ok((Num(s[|s| - n..]), s[..|s| - n]))
  }

  lemma PopPushed(s: seq<Bit>, v: nat, n: nat)
    ensures Pop(s + BitsOf(v, n), n) == Ok((Low(v, n), s))
  {
    hide Num, Low, BitsOf;
    NumBits(v, n);
    var t := s + BitsOf(v, n);
    assert t[|t| - n..] == BitsOf(v, n) && t[..|t| - n] == s;
  }

  /** Cutting a number's bits at k. */
  lemma {:induction false} NumCut(t: seq<Bit>, k: nat)
    requires k <= |t|
    ensures Shr(Num(t), k) == Num(t[k..]) && Low(Num(t), k) == Num(t[..k])
    decreases k
  {
    if k == 0 {
      assert t[0..] == t;
    } else {
      NumCut(t[1..], k - 1);
      assert t[1..][k - 1..] == t[k..] && t[1..][..k - 1] == t[..k][1..];
      var h := Num(t[1..]);
      assert (t[0] + 2 * h) / 2 == h && (t[0] + 2 * h) % 2 == t[0];
      ShrHalf(Num(t), k - 1);
    }
  }

  /** Three numbers read one after the other are the parts of one number read at once. */
  lemma PopThree(s: seq<Bit>, a: nat, b: nat, c: nat)
    ensures match Pop(s, a + b + c)
            case Err(_) => Pop(s, a).Err? || Pop(Pop(s, a).value.1, b).Err? || Pop(Pop(Pop(s, a).value.1, b).value.1, c).Err?
            case Ok((x, rest)) =>
              && Pop(s, a).Ok? && Pop(s, a).value.0 == Shr(x, b + c)
              && var s1 := Pop(s, a).value.1;
                 && Pop(s1, b).Ok? && Pop(s1, b).value.0 == Low(Shr(x, c), b)
                 && Pop(Pop(s1, b).value.1, c) == Ok((Low(x, c), rest))
  {
    hide Num, Shr, Low;
    var n := a + b + c;
    if n <= |s| {
      var t := s[|s| - n..];
      NumCut(t, b + c);
      NumCut(t, c);
      NumCut(t[c..], b);
      assert t[b + c..] == s[|s| - a..];
      var s1 := s[..|s| - a];
      assert t[c..][..b] == s1[|s1| - b..];
      var s2 := s1[..|s1| - b];
      assert t[..c] == s2[|s2| - c..] && s2[..|s2| - c] == s[..|s| - n];
    }
  }

  lemma PoppedBelow(s: seq<Bit>, n: nat)
    ensures Pop(s, n).Ok? ==> Pop(s, n).value.0 < Pow2(n)
  {
    if |s| >= n { NumBelow(s[|s| - n..]); }
  }

  lemma {:induction false} NumBelow(s: seq<Bit>)
    ensures Num(s) < Pow2(|s|)
    decreases |s|
  {
    if s != [] { NumBelow(s[1..]); }
  }

  /** The number whose bytes, lowest first, these are. */
  function Little(s: seq<Byte>): nat
  {
    if s == [] then 0 else s[0] + 256 * Little(s[1..])
  }

  lemma {:induction false} LittleBits(s: seq<Byte>)
    ensures BytesBits(s) == BitsOf(Little(s), 8 * |s|) && Little(s) < Pow2(8 * |s|)
    decreases |s|
  {
    hide BytesBits;
    if s == [] {
      NoBytes();
    } else {
      LittleBits(s[1..]);
      BytesConcat([s[0]], s[1..]);
      assert [s[0]] + s[1..] == s;
      OneByte(s[0]);
      PowersToByte();
      BitsAppend(s[0], 8, Little(s[1..]), 8 * (|s| - 1));
      BitWriter.ContainerFits(s[0], 8, Little(s[1..]), 8 * (|s| - 1));
    }
  }

  lemma NoBytes()
    ensures BytesBits([]) == [] && BitsOf(0, 0) == []
  {
  }

  lemma OneByte(b: Byte)
    ensures BytesBits([b]) == BitsOf(b, 8)
  {
    assert [b][..0] == [];
  }

  /** Shifting left by b and keeping m + b bits, then shifting right, selects n bits below position m. */
  lemma SelectBits(v: nat, b: nat, m: nat, n: nat)
    requires n <= m
    ensures Shr(Low(Shl(v, b), b + m), b + m - n) == Low(Shr(v, m - n), n)
  {
    hide Pow2, Shr, Low;
    ShrOfLow(Shl(v, b), b + m - n, n);
    ShrAdd(Shl(v, b), b, m - n);
    ShrShl(v, b);
  }

  lemma {:induction false} ShrOfLow(x: nat, a: nat, c: nat)
    ensures Shr(Low(x, a + c), a) == Low(Shr(x, a), c)
    decreases a
  {
    if a > 0 {
      ShrHalf(x, a - 1);
      ShrOfLow(x / 2, a - 1, c);
      var l := Low(x / 2, a - 1 + c);
      assert (x % 2 + 2 * l) / 2 == l;
      ShrHalf(Low(x, a + c), a - 1);
    }
  }

  lemma {:induction false} ShrShl(v: nat, b: nat)
    ensures Shr(Shl(v, b), b) == v
    decreases b
  {
    if b > 0 {
      var p := Pow2(b - 1);
      assert v * (2 * p) == 2 * (v * p);
      ShrHalf(Shl(v, b), b - 1);
      ShrShl(v, b - 1);
    }
  }

  class BitReader {
    var inp: seq<Byte>
    var value: nat
    var cursor: nat
    var bitsRead: nat

    /** Reading past the start of the input is possible only when all of it is in the container. */
    ghost predicate Valid()
      reads this
    {
      cursor <= |inp| && (bitsRead > 64 ==> cursor == 0)
    }

    /** The bits not read yet; the next one is the last. */
    ghost function Remaining(): (s: seq<Bit>)
      requires Valid() && bitsRead <= 64
      reads this
    {
      BytesBits(inp[..cursor]) + BitsOf(value, 64 - bitsRead)
    }

    lemma AllRead()
      requires Valid() && bitsRead <= 64 && (cursor == 0 || bitsRead <= 32)
      ensures bitsRead == 64 <==> Remaining() == []
    {
      if bitsRead == 64 { assert BytesBits(inp[..cursor]) == [] && BitsOf(value, 0) == []; }
    }

    /** The bits not read yet, or an error when more were asked for than there are. */
    ghost function Rest(): Result<seq<Bit>>
      requires Valid()
      reads this
    {
      if bitsRead <= 64 then Ok(Remaining()) else Err(UnexpectedEof)
    }

    constructor ()
    {
      inp, value, cursor, bitsRead := [], 0, 0, 64;
    }

    /** Takes the last k bytes before the cursor into the container. */
    method Load(k: nat)
      requires Valid() && k <= cursor && 8 * k <= bitsRead <= 64
      modifies this
      ensures Valid() && inp == old(inp) && cursor == old(cursor) - k && bitsRead == old(bitsRead) - 8 * k
      ensures Remaining() == old(Remaining())
    {
      hide Pow2, BitsOf, BytesBits, Little, Low;
      var w := inp[cursor - k..cursor];
      assert inp[..cursor] == inp[..cursor - k] + w;
      BytesConcat(inp[..cursor - k], w);
      LittleBits(w);
      BitsAppend(Little(w), 8 * k, value, 64 - bitsRead);
      BitsOfLow(Little(w) + value * Pow2(8 * k), 64, 64 - bitsRead + 8 * k);
      value := Low(Shl(value, 8 * k) + Little(w), 64);
      cursor := cursor - k;
      bitsRead := bitsRead - 8 * k;
    }

    static lemma BitsOfLow(v: nat, n: nat, m: nat)
      requires m <= n
      ensures BitsOf(Low(v, n), m) == BitsOf(v, m)
    {
      hide Pow2, BitsOf, Low, Shr;
      BitsLow(v, n);
      BitsConcat(v, m, n - m);
      BitsConcat(Low(v, n), m, n - m);
      assert BitsOf(v, m) == BitsOf(v, n)[..m];
    }

    /** At least 32 bits in the container, if there are enough bytes; needs four bytes when it loads. */
    method FillFast()
      requires Valid() && (bitsRead < 32 || (4 <= cursor && bitsRead <= 64))
      modifies this
      ensures Valid() && inp == old(inp) && bitsRead <= 32 && cursor + 4 >= old(cursor)
      ensures Rest() == old(Rest())
    {
      if bitsRead < 32 {
        return;
      }
      Load(4);
    }

    /** At least 32 bits in the container, or all that are left. */
    method Fill()
      requires Valid()
      modifies this
      ensures Valid() && inp == old(inp)
      ensures Rest() == old(Rest()) && (cursor == 0 || bitsRead <= 32) && bitsRead <= old(bitsRead)
    {
      if bitsRead < 32 {
        return;
      }
      if cursor >= 4 {
        Load(4);
        return;
      }
      while cursor > 0
        invariant Valid() && inp == old(inp) && cursor < 4
        invariant old(bitsRead) <= 64 ==> 8 * cursor <= bitsRead <= 64 && Remaining() == old(Remaining())
        invariant old(bitsRead) > 64 ==> bitsRead == old(bitsRead) && cursor == 0
      {
        Load(1);
      }
    }

    /** The next n bits as a number; nothing useful, but in range, when there are fewer. */
    method GetBits(n: nat) returns (v: nat)
      requires Valid() && n <= 32 && (bitsRead + n > 64 ==> cursor == 0)
      modifies this`bitsRead
      ensures Valid() && bitsRead == old(bitsRead) + n && v < Pow2(n)
      ensures match old(Rest())
              case Err(_) => Rest().Err?
              case Ok(s) => match Pop(s, n)
                            case Err(_) => Rest().Err?
                            case Ok((x, s')) => v == x && Rest() == Ok(s')
    {
      hide Pow2, BitsOf, BytesBits, Num, Low, Shr, Shl;
      NoBits();
      if n == 0 {
        ghost var s := if bitsRead <= 64 then Remaining() else [];
        assert s[..|s|] == s && s[|s|..] == [];
        return 0;
      }
      v := Shr(Low(Shl(value, bitsRead % 64), 64), 64 - n);
      TopBelow(Shl(value, bitsRead % 64), n);
      if bitsRead + n <= 64 {
        TopBits(BytesBits(inp[..cursor]), value, bitsRead, n);
      }
      bitsRead := bitsRead + n;
    }

    static lemma TopBelow(x: nat, n: nat)
      requires n <= 64
      ensures Shr(Low(x, 64), 64 - n) < Pow2(n)
    {
      hide Pow2, Low, Shr;
      ShrLow(x, 64);
      ShrOfLow(x, 64 - n, n);
      ShrLow(Shr(x, 64 - n), n);
    }

    static lemma NoBits()
      ensures Num([]) == 0 && Pow2(0) == 1
    {
    }

    static lemma TopBits(front: seq<Bit>, value: nat, b: nat, n: nat)
      requires b + n <= 64
      ensures var s := front + BitsOf(value, 64 - b);
              && s[..|s| - n] == front + BitsOf(value, 64 - b - n)
              && Shr(Low(Shl(value, b), 64), 64 - n) == Num(s[|s| - n..])
    {
      hide Pow2, BitsOf, Num, Low, Shr, Shl;
      var m := 64 - b;
      SelectBits(value, b, m, n);
      BitsConcat(value, m - n, n);
      NumBits(Shr(value, m - n), n);
      assert (front + BitsOf(value, m))[|front| + m - n..] == BitsOf(Shr(value, m - n), n);
    }

    /** Starts at the end mark: the highest bit of the last byte. */
    method Init(input: seq<Byte>) returns (err: Option<Error>)
      modifies this
      ensures err == None <==> input != [] && input[|input| - 1] != 0
      ensures err == None ==> Valid() && inp == input && bitsRead <= 64 && Closed(Remaining(), input)
    {
      hide Pow2, BitsOf, BytesBits, BitLen, Closed;
      if |input| < 1 {
        return Some(CorruptStream);
      }
      inp := input;
      var v := input[|input| - 1];
      if v == 0 {
        return Some(CorruptStream);
      }
      cursor, bitsRead, value := |input|, 64, 0;
      NothingRead(input);
      if |input| >= 8 {
        Load(8);
      } else {
        Fill();
        Fill();
      }
      TopByte(input, Remaining());
      DropMark(BytesBits(inp[..cursor]), value, bitsRead, 8 - (BitLen(v) - 1));
      bitsRead := bitsRead + 8 - (BitLen(v) - 1);
      return None;
    }

    static lemma NothingRead(input: seq<Byte>)
      ensures BytesBits(input[..|input|]) + BitsOf(0, 0) == BytesBits(input)
    {
      assert input[..|input|] == input;
    }

    static lemma DropMark(front: seq<Bit>, value: nat, b: nat, n: nat)
      requires b + n <= 64
      ensures var s := front + BitsOf(value, 64 - b);
              s[..|s| - n] == front + BitsOf(value, 64 - b - n)
    {
      hide Num, Shr, Shl, Low;
      TopBits(front, value, b, n);
    }

    static lemma TopByte(input: seq<Byte>, s: seq<Bit>)
      requires input != [] && input[|input| - 1] != 0 && s == BytesBits(input)
      ensures var h := BitLen(input[|input| - 1]) - 1;
              0 <= h <= 7 && Closed(s[..|s| - (8 - h)], input)
    {
      hide Pow2, BitsOf, BitLen, Shr, Closed;
      var v := input[|input| - 1];
      ByteMark(v);
      var h := BitLen(v) - 1;
      var front := BytesBits(input[..|input| - 1]);
      assert s == front + BitsOf(v, 8);
      assert s == (front + BitsOf(v, h)) + ([1] + Zeros(7 - h));
      CutMark(front + BitsOf(v, h), s, 7 - h, input);
    }

    /** A byte that is not zero, from its highest bit on. */
    static lemma ByteMark(v: Byte)
      requires v != 0
      ensures 1 <= BitLen(v) <= 8
      ensures var h := BitLen(v) - 1; BitsOf(v, 8) == BitsOf(v, h) + ([1] + Zeros(7 - h))
    {
      hide Pow2, BitsOf, BitLen, Shr;
      PowersToByte();
      BitLenBound(v, 8);
      BitLenTop(v);
      BitLenPositive(v);
      var h := BitLen(v) - 1;
      BitsConcat(v, h, 8 - h);
      MarkBits(7 - h);
    }

    static lemma CutMark(t: seq<Bit>, s: seq<Bit>, pad: nat, input: seq<Byte>)
      requires pad < 8 && s == t + ([1] + Zeros(pad)) && s == BytesBits(input)
      ensures s[..|s| - (pad + 1)] == t && Closed(t, input)
    {
      hide BytesBits;
      assert s == t + [1] + Zeros(pad);
    }

    static lemma MarkBits(k: nat)
      ensures BitsOf(1, k + 1) == [1] + Zeros(k)
    {
      ZeroBits(k);
    }

    /** Succeeds when every bit of the container, and no more, has been read. */
    method Close() returns (err: Option<Error>)
      modifies this
      ensures err == None <==> old(bitsRead) == 64
    {
      inp, cursor := [], 0;
      if bitsRead < 64 {
        return Some(ExtraBits);
      }
      if bitsRead > 64 {
        return Some(UnexpectedEof);
      }
      return None;
    }
  }
}
