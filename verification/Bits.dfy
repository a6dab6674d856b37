/** Bytes, bits and the arithmetic of shifts, written on unbounded integers. */
module Bits {
  type Byte = b: int | 0 <= b < 256
  type Bit = b: int | 0 <= b < 2

  const TWO24: int := 0x100_0000
  const TWO31: int := 0x8000_0000
  const TWO32: int := 0x1_0000_0000

  function Pow2(n: nat): (r: nat)
    ensures r >= 1
  {
    if n == 0 then 1 else 2 * Pow2(n - 1)
  }

  lemma Pow2Add(a: nat, b: nat)
    ensures Pow2(a + b) == Pow2(a) * Pow2(b)
  {
    if a > 0 { Pow2Add(a - 1, b); }
  }

  lemma Pow2Mono(a: nat, b: nat)
    requires a <= b
    ensures Pow2(a) <= Pow2(b)
    ensures a < b ==> 2 * Pow2(a) <= Pow2(b)
    decreases b - a
  {
    if a < b { Pow2Mono(a + 1, b); }
  }

  lemma PowersToByte()
    ensures Pow2(0) == 1 && Pow2(7) == 128 && Pow2(8) == 256
  {
  }

  lemma FirstPowers()
    ensures Pow2(1) == 2 && Pow2(2) == 4 && Pow2(3) == 8 && Pow2(4) == 16
  {
  }

  /** `v >> n`. */
  function Shr(v: nat, n: nat): nat
    decreases n
  {
    if n == 0 then v else Shr(v, n - 1) / 2
  }

  /** `v << n`. */
  function Shl(v: nat, n: nat): nat { v * Pow2(n) }

  /** The low `n` bits of `v`. */
  function Low(v: nat, n: nat): nat
    decreases n
  {
    if n == 0 then 0 else v % 2 + 2 * Low(v / 2, n - 1)
  }

  lemma ShrHalf(v: nat, n: nat)
    ensures Shr(v / 2, n) == Shr(v, n + 1)
    decreases n
  {
    if n > 0 { ShrHalf(v, n - 1); }
  }

  lemma {:induction false} ShrLow(v: nat, n: nat)
    ensures v == Shr(v, n) * Pow2(n) + Low(v, n)
    ensures Low(v, n) < Pow2(n)
    decreases n
  {
    if n > 0 {
      ShrLow(v / 2, n - 1);
      ShrHalf(v, n - 1);
      MulDouble(Shr(v, n), Pow2(n - 1));
    }
  }

  lemma MulDouble(a: int, b: int)
    ensures a * (2 * b) == 2 * (a * b)
    ensures (2 * b) * a == 2 * (b * a)
  {
  }

  lemma MulDifference(x: int, y: int, z: int)
    ensures (x - y) * z == x * z - y * z
    ensures x >= y && z >= 0 ==> x * z >= y * z
  {
  }

  lemma MulStep(a: nat, b: nat, p: nat)
    requires a < b
    ensures a * p + p <= b * p
  {
    MulDifference(b, a + 1, p);
    MulDifference(a + 1, a, p);
  }

  lemma ShrZero(v: nat, n: nat)
    requires v < Pow2(n)
    ensures Shr(v, n) == 0
    ensures Low(v, n) == v
  {
    ShrLow(v, n);
    var s, p := Shr(v, n), Pow2(n);
    assert s * p <= v < p;
    assert s >= 1 ==> s * p >= p;
  }

  lemma ShrOfShl(q: nat, n: nat, b: nat)
    requires b < Pow2(n)
    ensures Shr(Shl(q, n) + b, n) == q && Low(Shl(q, n) + b, n) == b
  {
    hide Pow2, Shr, Low;
    var v := Shl(q, n) + b;
    ShrLow(v, n);
    SameQuotient(Shr(v, n), Low(v, n), q, b, Pow2(n));
  }

  lemma SameQuotient(q: nat, r: nat, q': nat, r': nat, p: nat)
    requires q * p + r == q' * p + r' && r < p && r' < p
    ensures q == q' && r == r'
  {
    if q < q' { MulDifference(q', q + 1, p); MulDifference(q + 1, q, p); }
    if q' < q { MulDifference(q, q' + 1, p); MulDifference(q' + 1, q', p); }
  }

  lemma ShrAdd(v: nat, a: nat, b: nat)
    ensures Shr(Shr(v, a), b) == Shr(v, a + b)
    decreases b
  {
    if b > 0 { ShrAdd(v, a, b - 1); }
  }

  lemma {:induction false} LowSplit(v: nat, a: nat, b: nat)
    ensures Low(v, a + b) == Low(v, a) + Pow2(a) * Low(Shr(v, a), b)
    decreases a
  {
    if a > 0 {
      LowSplit(v / 2, a - 1, b);
      ShrHalf(v, a - 1);
      MulDouble(Low(Shr(v, a), b), Pow2(a - 1));
    }
  }

  /** Adding one more high bit. */
  lemma LowTop(v: nat, n: nat)
    ensures Low(v, n + 1) == Low(v, n) + Pow2(n) * (Shr(v, n) % 2)
  {
    LowSplit(v, n, 1);
    var w := Shr(v, n);
    assert Low(w, 1) == w % 2 + 2 * Low(w / 2, 0);
  }

  /** The number of bits of v without leading zeros: 32 - nlz32(v). */
  function BitLen(v: nat): nat { if v == 0 then 0 else 1 + BitLen(v / 2) }

  lemma {:induction false} BitLenTop(v: nat)
    requires v > 0
    ensures Shr(v, BitLen(v) - 1) == 1
  {
    if v > 1 {
      BitLenTop(v / 2);
      ShrHalf(v, BitLen(v / 2) - 1);
    }
  }

  lemma BitLenBound(v: nat, n: nat)
    requires v < Pow2(n)
    ensures BitLen(v) <= n
  {
    if v > 0 { BitLenBound(v / 2, n - 1); }
  }

  lemma BitLenAtMost(v: nat, n: nat)
    ensures BitLen(v) <= n <==> v < Pow2(n)
  {
    hide Pow2;
    if v < Pow2(n) {
      BitLenBound(v, n);
    } else if BitLen(v) <= n {
      PowersToByte();
      Pow2Mono(0, n);
      BitLenRange(v);
      Pow2Next(BitLen(v) - 1);
      Pow2Mono(BitLen(v), n);
      assert false;
    }
  }

  lemma Pow2Next(n: nat)
    ensures Pow2(n + 1) == 2 * Pow2(n)
  {
  }

  lemma BitLenPositive(v: nat)
    ensures v > 0 ==> BitLen(v) >= 1
  {
  }

  /** The position of the highest bit. */
  function HighBit(v: nat): nat
    requires v >= 1
  {
    BitLenPositive(v);
    BitLen(v) - 1
  }

  /** The length of a number tells between which powers of two it lies. */
  lemma {:induction false} BitLenRange(x: nat)
    requires x >= 1
    ensures BitLen(x) >= 1 && Pow2(BitLen(x) - 1) <= x < 2 * Pow2(BitLen(x) - 1)
    decreases x
  {
    hide Pow2;
    if x == 1 {
      assert BitLen(1) == 1 + BitLen(0);
      PowersToByte();
    } else {
      BitLenRange(x / 2);
      Pow2Next(BitLen(x / 2) - 1);
    }
  }

  lemma BitLenFour(v: nat)
    requires v >= 4
    ensures BitLen(v) >= 3
  {
    assert BitLen(v) == 1 + BitLen(v / 2);
    assert BitLen(v / 2) == 1 + BitLen(v / 2 / 2);
  }

  /** The big-endian number denoted by a string of bytes. */
  function Big(s: seq<Byte>): nat
  {
    if s == [] then 0 else Big(s[..|s| - 1]) * 256 + s[|s| - 1]
  }

  lemma BigSnoc(s: seq<Byte>, b: Byte)
    ensures Big(s + [b]) == Big(s) * 256 + b
  {
    assert (s + [b])[..|s|] == s;
  }

  lemma BigPrefix(s: seq<Byte>, n: nat)
    requires n < |s|
    ensures Big(s[..n + 1]) == Big(s[..n]) * 256 + s[n]
  {
    assert s[..n + 1] == s[..n] + [s[n]];
    BigSnoc(s[..n], s[n]);
  }

  /** `n` copies of the byte `b`. */
  function Fill(b: Byte, n: nat): (s: seq<Byte>)
    ensures |s| == n && forall i :: 0 <= i < n ==> s[i] == b
  {
    seq(n, _ => b)
  }

  lemma FillSnoc(b: Byte, n: nat)
    ensures Fill(b, n + 1) == Fill(b, n) + [b]
  {
  }

  /** A carry turns a run of 0xff bytes into zeros and adds one to the byte in front. */
  lemma BigCarry(s: seq<Byte>, c: Byte, n: nat)
    requires c < 255
    ensures Big(s + [c] + Fill(255, n)) + 1 == Big(s + [c + 1] + Fill(0, n))
  {
    if n == 0 {
      assert s + [c] + Fill(255, 0) == s + [c];
      assert s + [c + 1] + Fill(0, 0) == s + [c + 1];
      BigSnoc(s, c);
      BigSnoc(s, c + 1);
    } else {
      BigCarry(s, c, n - 1);
      FillSnoc(255, n - 1);
      FillSnoc(0, n - 1);
      assert s + [c] + Fill(255, n) == (s + [c] + Fill(255, n - 1)) + [255];
      assert s + [c + 1] + Fill(0, n) == (s + [c + 1] + Fill(0, n - 1)) + [0];
      BigSnoc(s + [c] + Fill(255, n - 1), 255);
      BigSnoc(s + [c + 1] + Fill(0, n - 1), 0);
    }
  }
}

module Results {
  datatype Error =
    | UnexpectedEof | FirstByteNotZero | CodeOutOfRange
    | DistanceOutOfRange | LengthOutOfRange | NoSpace
    | BadTable | BadSymbol | CorruptStream | ExtraBits
    | LimitReached | WrongSize | DataAfterEos | BadHeaderByte | BadChunkType | BadProperties

  datatype Result<+T> = Ok(value: T) | Err(error: Error) {
    predicate IsFailure() { Err? }
    function PropagateFailure<U>(): Result<U>
      requires Err?
    {
      Err(error)
    }
    function Extract(): T
      requires Ok?
    {
      value
    }
  }

  datatype Option<+T> = None | Some(value: T)
}
