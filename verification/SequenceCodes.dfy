/** Codes for literal lengths, match lengths and offsets, and the tables of base values that undo them. */
module SequenceCodes {
  import opened Bits

  /** Lengths and offsets from here on have no code. */
  const LL_LIMIT: nat := 0x2_0000
  const ML_LIMIT: nat := 0x2_0000
  const OF_LIMIT: nat := 0x8000_0000

  /** The first 64 codes, a table in which every code fills one run. */
  function LlCodeTable(v: nat): nat
    requires v < 64
  {
    if v < 16 then v
    else if v < 18 then 16 else if v < 20 then 17 else if v < 22 then 18 else if v < 24 then 19
    else if v < 28 then 20 else if v < 32 then 21
    else if v < 40 then 22 else if v < 48 then 23
    else 24
  }

  function LlCode(litLength: nat): nat
  {
    if litLength <= 63 then LlCodeTable(litLength) else HighBit(litLength) + 19
  }

  /** The extra bits of a code: zero for the first 16, then the table 1 1 1 1 2 2 3 3 4 6 7 8 .. 16. */
  function LlBits(code: nat): nat
  {
    if code < 16 then 0 else if code < 20 then 1 else if code < 22 then 2 else if code < 24 then 3 else if code < 25 then 4
    else code - 19
  }

  function MlCodeTable(v: nat): nat
    requires v < 128
  {
    if v < 32 then v
    else if v < 34 then 32 else if v < 36 then 33 else if v < 38 then 34 else if v < 40 then 35
    else if v < 44 then 36 else if v < 48 then 37
    else if v < 56 then 38 else if v < 64 then 39
    else if v < 80 then 40 else if v < 96 then 41
    else 42
  }

  function MlCode(mlBase: nat): nat
  {
    if mlBase <= 127 then MlCodeTable(mlBase) else HighBit(mlBase) + 36
  }

  /** Zero for the first 32, then 1 1 1 1 2 2 3 3 4 4 5 7 8 .. 16. */
  function MlBits(code: nat): nat
  {
    if code < 32 then 0 else if code < 36 then 1 else if code < 38 then 2 else if code < 40 then 3 else if code < 42 then 4
    else if code < 43 then 5 else code - 36
  }

  function OfCode(offset: nat): nat
    requires offset >= 1
  {
    HighBit(offset)
  }

  datatype BaseOffset = BaseOffset(baseLine: nat, addBits: nat)

  /** Ranges laid end to end, the i-th of 2^bits[i] values. */
  function BaseAt(base: nat, bits: seq<nat>, i: nat): nat
    requires i <= |bits|
  {
    if i == 0 then base else BaseAt(base, bits, i - 1) + Pow2(bits[i - 1])
  }

  method FillBase(base: nat, bits: seq<nat>) returns (dst: seq<BaseOffset>)
    ensures |dst| == |bits|
    ensures forall i :: 0 <= i < |dst| ==> dst[i] == BaseOffset(BaseAt(base, bits, i), bits[i])
  {
    hide Pow2, BaseAt;
    BaseFirst(base, bits);
    dst := [];
    var next := base;
    for i := 0 to |bits|
      invariant |dst| == i && next == BaseAt(base, bits, i)
      invariant forall k :: 0 <= k < i ==> dst[k] == BaseOffset(BaseAt(base, bits, k), bits[k])
    {
      BaseNext(base, bits, i);
      dst := dst + [BaseOffset(next, bits[i])];
      next := next + Pow2(bits[i]);
    }
  }

  lemma BaseFirst(base: nat, bits: seq<nat>)
    ensures BaseAt(base, bits, 0) == base
  {
  }

  lemma BaseNext(base: nat, bits: seq<nat>, i: nat)
    requires i < |bits|
    ensures BaseAt(base, bits, i + 1) == BaseAt(base, bits, i) + Pow2(bits[i])
  {
  }

  /** A decoder's table undoes a code: base and low bits of the value give the value, shifted as the decoder wants it. */
  ghost predicate Undoes(tab: seq<BaseOffset>, code: nat, bits: nat, v: nat, decoded: nat)
  {
    code < |tab| && tab[code].addBits == bits && tab[code].baseLine + Low(v, bits) == decoded
  }

  // ----- literal lengths -----

  function LlTail(): (s: seq<nat>)
    ensures |s| == 20 && forall i :: 0 <= i < 20 ==> s[i] == LlBits(16 + i)
  {
    seq(20, i requires 0 <= i < 20 => LlBits(16 + i))
  }

  method LlBases() returns (tab: seq<BaseOffset>)
    ensures |tab| == 36
    ensures forall v: nat :: v < LL_LIMIT ==> Undoes(tab, LlCode(v), LlBits(LlCode(v)), v, v)
  {
    hide Pow2, LlBits, LlCode, Undoes, BaseAt, Low;
    tab := [];
    for i := 0 to 16
      invariant |tab| == i && forall k :: 0 <= k < i ==> tab[k] == BaseOffset(k, 0)
    {
      tab := tab + [BaseOffset(i, 0)];
    }
    var tail := FillBase(16, LlTail());
    tab := tab + tail;
    forall v: nat | v < LL_LIMIT
      ensures Undoes(tab, LlCode(v), LlBits(LlCode(v)), v, v)
    {
      LlUndone(tab, v);
    }
  }

  /** The least value of a code. */
  function LlBase(code: nat): nat
  {
    if code < 16 then code else if code < 20 then 16 + 2 * (code - 16) else if code < 22 then 24 + 4 * (code - 20)
    else if code < 24 then 32 + 8 * (code - 22) else if code < 25 then 48 else Pow2(code - 19)
  }

  lemma {:induction false} LlBaseAt(i: nat)
    requires i <= 20
    ensures BaseAt(16, LlTail(), i) == LlBase(16 + i)
    decreases i
  {
    hide Pow2;
    if i > 0 {
      LlBaseAt(i - 1);
      SmallPowers();
      if i >= 10 { Pow2Next(i - 4); }
    }
  }

  lemma SmallPowers()
    ensures Pow2(0) == 1 && Pow2(1) == 2 && Pow2(2) == 4 && Pow2(3) == 8 && Pow2(4) == 16 && Pow2(5) == 32 && Pow2(6) == 64 && Pow2(7) == 128
  {
  }

  lemma LlUndone(tab: seq<BaseOffset>, v: nat)
    requires v < LL_LIMIT && |tab| == 36
    requires forall k :: 0 <= k < 16 ==> tab[k] == BaseOffset(k, 0)
    requires forall i :: 0 <= i < 20 ==> tab[16 + i] == BaseOffset(BaseAt(16, LlTail(), i), LlTail()[i])
    ensures Undoes(tab, LlCode(v), LlBits(LlCode(v)), v, v)
  {
    hide Pow2, Low, BitLen, BaseAt;
    LlCodeOk(v);
    var code := LlCode(v);
    if code >= 16 {
      LlBaseAt(code - 16);
      assert tab[16 + (code - 16)] == BaseOffset(LlBase(code), LlBits(code));
    }
  }

  /** The code is in the table and the low bits of the value count from its base. */
  lemma LlCodeOk(v: nat)
    requires v < LL_LIMIT
    ensures LlCode(v) <= 35 && LlBase(LlCode(v)) + Low(v, LlBits(LlCode(v))) == v
  {
    hide Pow2, Low, BitLen;
    if v >= 64 {
      Pow2Limits();
      TopRange(v, 17);
      SmallPowers();
      if HighBit(v) < 6 { Pow2Mono(HighBit(v) + 1, 6); }
    } else {
      var c := LlCode(v);
      if c < 16 { NoLow(v); }
      else if c < 20 { LowFrom(v, 1, c - 8); }
      else if c < 22 { LowFrom(v, 2, c - 14); }
      else if c < 24 { LowFrom(v, 3, c - 18); }
      else { LowFrom(v, 4, 3); }
    }
  }

  /** The highest bit and the rest. */
  lemma TopRange(v: nat, n: nat)
    requires v >= 1 && v < Pow2(n)
    ensures HighBit(v) < n && Pow2(HighBit(v)) <= v < Pow2(HighBit(v) + 1)
    ensures Pow2(HighBit(v)) + Low(v, HighBit(v)) == v
  {
    hide Pow2, Low, Shr, BitLen;
    BitLenBound(v, n);
    BitLenTop(v);
    BitLenRange(v);
    Pow2Next(HighBit(v));
    ShrLow(v, HighBit(v));
  }

  /** The low bits count from the last multiple of a power of two. */
  lemma LowFrom(v: nat, n: nat, q: nat)
    requires n <= 5
    ensures var p := if n == 1 then 2 else if n == 2 then 4 else if n == 3 then 8 else if n == 4 then 16 else 32;
            1 <= n && q * p <= v < q * p + p ==> q * p + Low(v, n) == v
  {
    hide Pow2, Low, Shr;
    SmallPowers();
    if n == 1 && 2 * q <= v < 2 * q + 2 { ShrOfShl(q, 1, v - 2 * q); }
    if n == 2 && 4 * q <= v < 4 * q + 4 { ShrOfShl(q, 2, v - 4 * q); }
    if n == 3 && 8 * q <= v < 8 * q + 8 { ShrOfShl(q, 3, v - 8 * q); }
    if n == 4 && 16 * q <= v < 16 * q + 16 { ShrOfShl(q, 4, v - 16 * q); }
    if n == 5 && 32 * q <= v < 32 * q + 32 { ShrOfShl(q, 5, v - 32 * q); }
  }

  lemma NoLow(v: nat)
    ensures Low(v, 0) == 0
  {
  }

  lemma Pow2Limits()
    ensures Pow2(17) == LL_LIMIT == ML_LIMIT && Pow2(31) == OF_LIMIT
  {
    hide Pow2;
    PowersToByte();
    Pow2Add(8, 8);
    Pow2Next(16);
    Pow2Add(8, 7);
    Pow2Add(16, 15);
  }

  // ----- match lengths -----

  function MlTail(): (s: seq<nat>)
    ensures |s| == 21 && forall i :: 0 <= i < 21 ==> s[i] == MlBits(32 + i)
  {
    seq(21, i requires 0 <= i < 21 => MlBits(32 + i))
  }

  /** Match lengths are coded without the three bytes every match has; the decoder's bases add them back. */
  method MlBases() returns (tab: seq<BaseOffset>)
    ensures |tab| == 53
    ensures forall v: nat :: v < ML_LIMIT ==> Undoes(tab, MlCode(v), MlBits(MlCode(v)), v, v + 3)
  {
    hide Pow2, MlBits, MlCode, Undoes, BaseAt, Low;
    tab := [];
    for i := 0 to 32
      invariant |tab| == i && forall k :: 0 <= k < i ==> tab[k] == BaseOffset(k + 3, 0)
    {
      tab := tab + [BaseOffset(i + 3, 0)];
    }
    var tail := FillBase(35, MlTail());
    tab := tab + tail;
    forall v: nat | v < ML_LIMIT
      ensures Undoes(tab, MlCode(v), MlBits(MlCode(v)), v, v + 3)
    {
      MlUndone(tab, v);
    }
  }

  function MlBase(code: nat): nat
  {
    if code < 32 then code else if code < 36 then 32 + 2 * (code - 32) else if code < 38 then 40 + 4 * (code - 36)
    else if code < 40 then 48 + 8 * (code - 38) else if code < 42 then 64 + 16 * (code - 40) else if code < 43 then 96 else Pow2(code - 36)
  }

  lemma {:induction false} MlBaseAt(i: nat)
    requires i <= 21
    ensures BaseAt(35, MlTail(), i) == MlBase(32 + i) + 3
    decreases i
  {
    hide Pow2;
    if i > 0 {
      MlBaseAt(i - 1);
      SmallPowers();
      if i >= 12 { Pow2Next(i - 5); }
    }
  }

  lemma MlUndone(tab: seq<BaseOffset>, v: nat)
    requires v < ML_LIMIT && |tab| == 53
    requires forall k :: 0 <= k < 32 ==> tab[k] == BaseOffset(k + 3, 0)
    requires forall i :: 0 <= i < 21 ==> tab[32 + i] == BaseOffset(BaseAt(35, MlTail(), i), MlTail()[i])
    ensures Undoes(tab, MlCode(v), MlBits(MlCode(v)), v, v + 3)
  {
    hide Pow2, Low, BitLen, BaseAt;
    MlCodeOk(v);
    var code := MlCode(v);
    if code >= 32 {
      MlBaseAt(code - 32);
      assert tab[32 + (code - 32)] == BaseOffset(MlBase(code) + 3, MlBits(code));
    }
  }

  lemma MlCodeOk(v: nat)
    requires v < ML_LIMIT
    ensures MlCode(v) <= 52 && MlBase(MlCode(v)) + Low(v, MlBits(MlCode(v))) == v
  {
    hide Pow2, Low, BitLen;
    if v >= 128 {
      Pow2Limits();
      TopRange(v, 17);
      SmallPowers();
      if HighBit(v) < 7 { Pow2Mono(HighBit(v) + 1, 7); }
    } else {
      var c := MlCode(v);
      if c < 32 { NoLow(v); }
      else if c < 36 { LowFrom(v, 1, c - 16); }
      else if c < 38 { LowFrom(v, 2, c - 26); }
      else if c < 40 { LowFrom(v, 3, c - 32); }
      else if c < 42 { LowFrom(v, 4, c - 36); }
      else { LowFrom(v, 5, 3); }
    }
  }

  // ----- offsets -----

  function OfTail(): (s: seq<nat>)
    ensures |s| == 29 && forall i :: 0 <= i < 29 ==> s[i] == i + 2
  {
    seq(29, i requires 0 <= i < 29 => i + 2)
  }

  /** What the decoder makes of a coded offset: 0, 1, 2 name a recent offset, everything else is a distance. */
  function OfDecoded(v: nat): nat
    requires v >= 1
  {
    if v <= 3 then v - 1 else v - 3
  }

  method OfBases() returns (tab: seq<BaseOffset>)
    ensures |tab| == 31
    ensures forall v: nat :: 1 <= v < OF_LIMIT ==> Undoes(tab, OfCode(v), OfCode(v), v, OfDecoded(v))
  {
    hide Pow2, OfCode, Undoes, BaseAt, Low;
    tab := [BaseOffset(0, 0), BaseOffset(1, 1)];
    var tail := FillBase(1, OfTail());
    tab := tab + tail;
    assert forall i :: 0 <= i < 29 ==> tab[2 + i] == tail[i];
    forall v: nat | 1 <= v < OF_LIMIT
      ensures Undoes(tab, OfCode(v), OfCode(v), v, OfDecoded(v))
    {
      OfUndone(tab, v);
    }
  }

  lemma {:induction false} OfBaseAt(i: nat)
    requires i <= 29
    ensures BaseAt(1, OfTail(), i) == Pow2(i + 2) - 3
    decreases i
  {
    hide Pow2;
    SmallPowers();
    if i > 0 {
      OfBaseAt(i - 1);
      Pow2Next(i + 1);
    }
  }

  lemma OfUndone(tab: seq<BaseOffset>, v: nat)
    requires 1 <= v < OF_LIMIT && |tab| == 31
    requires tab[0] == BaseOffset(0, 0) && tab[1] == BaseOffset(1, 1)
    requires forall i :: 0 <= i < 29 ==> tab[2 + i] == BaseOffset(BaseAt(1, OfTail(), i), OfTail()[i])
    ensures Undoes(tab, OfCode(v), OfCode(v), v, OfDecoded(v))
  {
    hide Pow2, Low, BitLen, BaseAt;
    Pow2Limits();
    TopRange(v, 31);
    SmallPowers();
    NoLow(v);
    LowFrom(v, 1, 1);
    var code := OfCode(v);
    if code >= 2 {
      OfBaseAt(code - 2);
      Pow2Mono(2, code);
      assert tab[2 + (code - 2)] == BaseOffset(Pow2(code) - 3, code);
    }
  }
}
