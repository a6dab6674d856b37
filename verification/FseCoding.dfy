/** One step of finite state entropy coding, forwards and backwards, over a table of symbols. */
module FseCoding {
  import opened Bits
  import opened Counting

  /** A table whose size is a power of two. */
  predicate TableOk(t: seq<nat>, log: nat) { |t| == Pow2(log) }

  /** The cell that holds the symbol for the r-th time, counting from 0. */
  function Cell(t: seq<nat>, s: nat, r: nat): (u: nat)
    requires r < Count(t, s)
    ensures u < |t| && t[u] == s && Count(t[..u], s) == r
    decreases |t|
  {
    var front := t[..|t| - 1];
    if r < Count(front, s) then
      var u := Cell(front, s, r);
      assert front[..u] == t[..u];
      u
    else |t| - 1
  }

  lemma {:induction false} CountPrefix(t: seq<nat>, u: nat, s: nat)
    requires u <= |t|
    ensures Count(t[..u], s) <= Count(t, s)
    ensures u < |t| && t[u] == s ==> Count(t[..u], s) < Count(t, s)
    decreases |t|
  {
    if u < |t| {
      CountPrefix(t[..|t| - 1], u, s);
      assert t[..|t| - 1][..u] == t[..u];
    } else {
      assert t[..u] == t;
    }
  }

  lemma {:induction false} CellUnique(t: seq<nat>, u: nat)
    requires u < |t|
    ensures Count(t[..u], t[u]) < Count(t, t[u]) && Cell(t, t[u], Count(t[..u], t[u])) == u
    decreases |t|
  {
    CountPrefix(t, u, t[u]);
    var front := t[..|t| - 1];
    if u < |t| - 1 {
      assert front[..u] == t[..u];
      CellUnique(front, u);
    }
  }

  // ----- the decoder's table -----

  /** Where the decoder goes on from a cell: a number of at least n and less than 2n for a symbol with n cells. */
  function NextState(t: seq<nat>, u: nat): (x: nat)
    requires u < |t|
    ensures Count(t, t[u]) <= x < 2 * Count(t, t[u])
  {
    CountPrefix(t, u, t[u]);
    Count(t, t[u]) + Count(t[..u], t[u])
  }

  lemma NextStateLen(t: seq<nat>, log: nat, u: nat)
    requires TableOk(t, log) && u < |t|
    ensures 1 <= BitLen(NextState(t, u)) <= log + 1
  {
    hide Pow2, Count;
    Pow2Next(log);
    BitLenBound(NextState(t, u), log + 1);
    BitLenPositive(NextState(t, u));
  }

  /** How many bits the decoder reads to leave a cell. */
  function NbBits(t: seq<nat>, log: nat, u: nat): nat
    requires TableOk(t, log) && u < |t|
  {
    NextStateLen(t, log, u);
    log - (BitLen(NextState(t, u)) - 1)
  }

  /** The cell the decoder goes to when the bits are all zero. */
  function Base(t: seq<nat>, log: nat, u: nat): nat
    requires TableOk(t, log) && u < |t|
  {
    BaseOk(t, log, u);
    Shl(NextState(t, u), NbBits(t, log, u)) - Pow2(log)
  }

  lemma BaseOk(t: seq<nat>, log: nat, u: nat)
    requires TableOk(t, log) && u < |t|
    ensures Pow2(log) <= Shl(NextState(t, u), NbBits(t, log, u))
    ensures Shl(NextState(t, u), NbBits(t, log, u)) + Pow2(NbBits(t, log, u)) <= 2 * Pow2(log)
  {
    hide Pow2, Count, BitLen;
    NextStateLen(t, log, u);
    ShiftFull(NextState(t, u), NbBits(t, log, u), log);
  }

  /** Shifting a number until its top bit is bit `log`. */
  lemma ShiftFull(x: nat, nb: nat, log: nat)
    requires BitLen(x) >= 1 && nb + BitLen(x) == log + 1
    ensures Pow2(log) <= Shl(x, nb) && Shl(x, nb) + Pow2(nb) <= 2 * Pow2(log)
  {
    hide Pow2, Shl;
    BitLenPositive(x);
    var k := BitLen(x) - 1;
    BitLenRange(x);
    assert k + nb == log;
    ShiftFullParts(x, k, nb);
  }

  lemma ShiftFullParts(x: nat, k: nat, nb: nat)
    requires Pow2(k) <= x < 2 * Pow2(k)
    ensures Pow2(k + nb) <= Shl(x, nb) && Shl(x, nb) + Pow2(nb) <= 2 * Pow2(k + nb)
  {
    hide Pow2;
    Pow2Add(k, nb);
    Between(x, Pow2(k), Pow2(nb));
  }

  lemma Between(x: nat, a: nat, p: nat)
    requires a <= x < 2 * a
    ensures a * p <= x * p && x * p + p <= 2 * (a * p)
  {
    MulDifference(x, a, p);
    MulDifference(2 * a, x + 1, p);
    MulDifference(x + 1, x, p);
    MulDouble(p, a);
  }

  lemma {:induction false} BitLenIs(x: nat, k: nat)
    requires Pow2(k) <= x < 2 * Pow2(k)
    ensures BitLen(x) == k + 1
    decreases k
  {
    if k > 0 { BitLenIs(x / 2, k - 1); }
  }

  // ----- the encoder's step -----

  /** How many bits of x must go until fewer than 2n remain. */
  function Shrink(x: nat, n: nat): (nb: nat)
    requires 1 <= n <= x
    ensures n <= Shr(x, nb) < 2 * n
    decreases x
  {
    if x < 2 * n then 0
    else
      var k := Shrink(x / 2, n);
      ShrHalf(x, k);
      k + 1
  }

  lemma {:induction false} ShrinkIs(x: nat, n: nat, k: nat)
    requires 1 <= n <= x && n <= Shr(x, k) < 2 * n
    ensures Shrink(x, n) == k
    decreases x
  {
    if x < 2 * n {
      if k > 0 { ShrAtMostHalf(x, k); }
    } else if k > 0 {
      ShrHalf(x, k - 1);
      ShrinkIs(x / 2, n, k - 1);
    }
  }

  lemma ShrAtMostHalf(x: nat, k: nat)
    requires k > 0
    ensures Shr(x, k) <= x / 2
    decreases k
  {
    if k > 1 { ShrAtMostHalf(x, k - 1); }
  }

  /** How many bits the encoder writes when it leaves the state y for a symbol. */
  function Emit(t: seq<nat>, log: nat, y: nat, s: nat): nat
    requires TableOk(t, log) && y < |t| && Count(t, s) >= 1
  {
    Shrink(Pow2(log) + y, Count(t, s))
  }

  /** The state it goes to. */
  function Move(t: seq<nat>, log: nat, y: nat, s: nat): (u: nat)
    requires TableOk(t, log) && y < |t| && Count(t, s) >= 1
    ensures u < |t| && t[u] == s
  {
    Cell(t, s, Shr(Pow2(log) + y, Emit(t, log, y, s)) - Count(t, s))
  }

  /** Decoding undoes encoding: from the new state the decoder reads the symbol, asks for as many bits, and returns to y. */
  lemma DecodeUndoes(t: seq<nat>, log: nat, y: nat, s: nat)
    requires TableOk(t, log) && y < |t| && Count(t, s) >= 1
    ensures var u, nb := Move(t, log, y, s), Emit(t, log, y, s);
            && t[u] == s && NbBits(t, log, u) == nb
            && Base(t, log, u) + Low(Pow2(log) + y, nb) == y
  {
    hide Pow2, Count, Shr, Low, BitLen, Shrink;
    var x, nb := Pow2(log) + y, Emit(t, log, y, s);
    var u := Move(t, log, y, s);
    assert NextState(t, u) == Shr(x, nb);
    BitLenIs(x, log);
    BitLenShr(x, nb);
    ShrLow(x, nb);
  }

  lemma {:induction false} BitLenShr(x: nat, nb: nat)
    requires Shr(x, nb) >= 1
    ensures BitLen(x) == BitLen(Shr(x, nb)) + nb
    decreases nb
  {
    if nb > 0 { BitLenShr(x, nb - 1); }
  }

  /** Encoding undoes decoding: the state the decoder comes to is one from which the encoder goes back to the cell. */
  lemma EncodeUndoes(t: seq<nat>, log: nat, u: nat, b: nat)
    requires TableOk(t, log) && u < |t| && b < Pow2(NbBits(t, log, u))
    ensures var y := Base(t, log, u) + b;
            && y < |t| && Count(t, t[u]) >= 1
            && Emit(t, log, y, t[u]) == NbBits(t, log, u)
            && Low(Pow2(log) + y, Emit(t, log, y, t[u])) == b
            && Move(t, log, y, t[u]) == u
  {
    hide Pow2, Count, Shr, Low, BitLen, Shrink;
    var nb, x' := NbBits(t, log, u), NextState(t, u);
    BaseOk(t, log, u);
    var y := Base(t, log, u) + b;
    ShrOfShl(x', nb, b);
    ShrinkIs(Pow2(log) + y, Count(t, t[u]), nb);
    CellUnique(t, u);
  }
}
