/** Canonical Huffman codes: which values of a table's index belong to which symbol. */
module HuffCodes {
  import opened Bits

  /** How many of the first n symbols have codes of l bits. */
  function Level(lens: seq<nat>, l: nat, n: nat): (k: nat)
    requires n <= |lens|
    ensures k <= n
  {
    if n == 0 then 0 else Level(lens, l, n - 1) + if lens[n - 1] == l then 1 else 0
  }

  /** The index values of all codes longer than l bits, out of 2^m: where the codes of l bits begin. */
  function RankStart(lens: seq<nat>, m: nat, l: nat): nat
    requires l <= m
    decreases m - l
  {
    if l == m then 0 else RankStart(lens, m, l + 1) + Level(lens, l + 1, |lens|) * Pow2(m - (l + 1))
  }

  /** No code is longer than m bits, and together they use up all 2^m values. Length 0 stands for an absent symbol. */
  predicate Complete(lens: seq<nat>, m: nat)
  {
    (forall s :: 0 <= s < |lens| ==> lens[s] <= m) && RankStart(lens, m, 0) == Pow2(m)
  }

  /** The first index value of a symbol: longer codes come first, and among equals lower symbols. */
  function Start(lens: seq<nat>, m: nat, s: nat): nat
    requires s < |lens| && lens[s] <= m
  {
    RankStart(lens, m, lens[s]) + Level(lens, lens[s], s) * Pow2(m - lens[s])
  }

  function Width(lens: seq<nat>, m: nat, s: nat): nat
    requires s < |lens| && lens[s] <= m
  {
    Pow2(m - lens[s])
  }

  /** The code: the bits that all index values of the symbol begin with. */
  function Code(lens: seq<nat>, m: nat, s: nat): nat
    requires s < |lens| && lens[s] <= m
  {
    Shr(Start(lens, m, s), m - lens[s])
  }

  lemma {:induction false} LevelMono(lens: seq<nat>, l: nat, a: nat, b: nat)
    requires a <= b <= |lens|
    ensures Level(lens, l, a) <= Level(lens, l, b)
    ensures a < b && lens[a] == l ==> Level(lens, l, a) < Level(lens, l, b)
    decreases b - a
  {
    if a < b { LevelMono(lens, l, a + 1, b); }
  }

  lemma {:induction false} RankMono(lens: seq<nat>, m: nat, a: nat, b: nat)
    requires a <= b <= m
    ensures RankStart(lens, m, b) <= RankStart(lens, m, a)
    decreases b - a
  {
    if a < b {
      RankMono(lens, m, a + 1, b);
      assert Level(lens, a + 1, |lens|) * Pow2(m - (a + 1)) >= 0;
    }
  }

  /** A symbol's values end before the next shorter codes begin. */
  lemma EndsBefore(lens: seq<nat>, m: nat, s: nat)
    requires s < |lens| && 1 <= lens[s] <= m
    ensures Start(lens, m, s) + Width(lens, m, s) <= RankStart(lens, m, lens[s] - 1)
  {
    hide Pow2, Level;
    var l := lens[s];
    LevelMono(lens, l, s, |lens|);
    MulStep(Level(lens, l, s), Level(lens, l, |lens|), Pow2(m - l));
  }

  /** No index value belongs to two symbols. */
  lemma Disjoint(lens: seq<nat>, m: nat, s: nat, t: nat)
    requires s < |lens| && t < |lens| && s != t && 1 <= lens[s] <= m && 1 <= lens[t] <= m
    ensures Start(lens, m, s) + Width(lens, m, s) <= Start(lens, m, t) || Start(lens, m, t) + Width(lens, m, t) <= Start(lens, m, s)
  {
    hide Pow2, Level, RankStart;
    if lens[s] == lens[t] {
      if s < t { SameLevel(lens, m, s, t); } else { SameLevel(lens, m, t, s); }
    } else if lens[s] > lens[t] {
      EndsBefore(lens, m, s);
      RankMono(lens, m, lens[t], lens[s] - 1);
      StartsAfter(lens, m, t);
    } else {
      EndsBefore(lens, m, t);
      RankMono(lens, m, lens[s], lens[t] - 1);
      StartsAfter(lens, m, s);
    }
  }

  lemma StartsAfter(lens: seq<nat>, m: nat, s: nat)
    requires s < |lens| && lens[s] <= m
    ensures RankStart(lens, m, lens[s]) <= Start(lens, m, s)
  {
    assert Level(lens, lens[s], s) * Pow2(m - lens[s]) >= 0;
  }

  lemma SameLevel(lens: seq<nat>, m: nat, s: nat, t: nat)
    requires s < t < |lens| && lens[s] == lens[t] && 1 <= lens[s] <= m
    ensures Start(lens, m, s) + Width(lens, m, s) <= Start(lens, m, t)
  {
    hide Pow2, Level, RankStart;
    var l := lens[s];
    LevelMono(lens, l, s, t);
    MulStep(Level(lens, l, s), Level(lens, l, t), Pow2(m - l));
  }

  /** In a complete assignment every length's codes begin at a multiple of their width. */
  lemma {:induction false} RankAligned(lens: seq<nat>, m: nat, l: nat) returns (c: nat)
    requires Complete(lens, m) && l <= m
    ensures RankStart(lens, m, l) == c * Pow2(m - l)
    decreases l
  {
    if l == 0 {
      c := 1;
    } else {
      var d := RankAligned(lens, m, l - 1);
      var p, n := Pow2(m - l), Level(lens, l, |lens|);
      Pow2Next(m - l);
      AlignedStep(RankStart(lens, m, l), n, d, p);
      c := 2 * d - n;
    }
  }

  lemma AlignedStep(r: nat, n: nat, d: nat, p: nat)
    requires r + n * p == d * (2 * p) && p >= 1
    ensures 2 * d >= n && r == (2 * d - n) * p
  {
    MulDouble(d, p);
    MulDifference(2 * d, n, p);
    assert (2 * d) * p == 2 * (d * p);
    if 2 * d < n {
      MulDifference(n, 2 * d + 1, p);
      MulDifference(2 * d + 1, 2 * d, p);
    }
  }

  /** The code shifted to the full width is the first index value, and it has no bits above its length. */
  lemma CodeIs(lens: seq<nat>, m: nat, s: nat)
    requires Complete(lens, m) && s < |lens| && 1 <= lens[s]
    ensures Start(lens, m, s) == Shl(Code(lens, m, s), m - lens[s]) && Code(lens, m, s) < Pow2(lens[s])
    ensures Start(lens, m, s) + Width(lens, m, s) <= Pow2(m)
  {
    hide Pow2, Shr, Low, RankStart;
    var l := lens[s];
    var c := RankAligned(lens, m, l);
    var k := Level(lens, l, s);
    assert (c + k) * Pow2(m - l) == c * Pow2(m - l) + k * Pow2(m - l);
    ShrOfShl(c + k, m - l, 0);
    EndsBefore(lens, m, s);
    RankMono(lens, m, 0, l - 1);
    Pow2Add(l, m - l);
    CodeFits(c + k, Pow2(m - l), Pow2(l));
  }

  lemma CodeFits(code: nat, w: nat, p: nat)
    requires code * w + w <= p * w && w >= 1
    ensures code < p
  {
    if code >= p { MulDifference(code, p, w); }
  }

  /** Every index value belongs to a symbol. */
  lemma Covered(lens: seq<nat>, m: nat, u: nat) returns (s: nat)
    requires Complete(lens, m) && u < Pow2(m)
    ensures s < |lens| && 1 <= lens[s] <= m && Start(lens, m, s) <= u < Start(lens, m, s) + Width(lens, m, s)
  {
    s := CoveredFrom(lens, m, 0, u);
  }

  lemma {:induction false} CoveredFrom(lens: seq<nat>, m: nat, l: nat, u: nat) returns (s: nat)
    requires l <= m && u < RankStart(lens, m, l)
    ensures s < |lens| && 1 <= lens[s] <= m && Start(lens, m, s) <= u < Start(lens, m, s) + Width(lens, m, s)
    decreases m - l
  {
    if u < RankStart(lens, m, l + 1) {
      s := CoveredFrom(lens, m, l + 1, u);
    } else {
      s := InLevel(lens, m, l + 1, |lens|, u);
    }
  }

  /** The symbol of length l whose turn it is. */
  lemma {:induction false} InLevel(lens: seq<nat>, m: nat, l: nat, n: nat, u: nat) returns (s: nat)
    requires 1 <= l <= m && n <= |lens| && RankStart(lens, m, l) <= u < RankStart(lens, m, l) + Level(lens, l, n) * Pow2(m - l)
    ensures s < n && lens[s] == l && Start(lens, m, s) <= u < Start(lens, m, s) + Width(lens, m, s)
    decreases n
  {
    hide Pow2;
    var p := Pow2(m - l);
    if u < RankStart(lens, m, l) + Level(lens, l, n - 1) * p {
      s := InLevel(lens, m, l, n - 1, u);
    } else {
      s := n - 1;
      MulDifference(Level(lens, l, n - 1) + 1, Level(lens, l, n - 1), p);
    }
  }

  /** No code is the beginning of another. */
  lemma PrefixFree(lens: seq<nat>, m: nat, s: nat, t: nat)
    requires Complete(lens, m) && s < |lens| && t < |lens| && s != t && 1 <= lens[s] <= lens[t]
    ensures Shr(Code(lens, m, t), lens[t] - lens[s]) != Code(lens, m, s)
  {
    hide Pow2, Shr, Low, RankStart, Start, Code;
    var ls, lt := lens[s], lens[t];
    CodeIs(lens, m, s);
    CodeIs(lens, m, t);
    Disjoint(lens, m, s, t);
    var cs, ct := Code(lens, m, s), Code(lens, m, t);
    if Shr(ct, lt - ls) == cs {
      ShrLow(ct, lt - ls);
      var low, a, b := Low(ct, lt - ls), Pow2(lt - ls), Pow2(m - lt);
      Pow2Add(lt - ls, m - lt);
      InsideOther(cs, low, a, b);
      assert false;
    }
  }

  /** A number that begins with cs stays inside the range of cs. */
  lemma InsideOther(cs: nat, low: nat, a: nat, b: nat)
    requires low < a && b >= 1
    ensures cs * (a * b) <= (cs * a + low) * b && (cs * a + low) * b + b <= cs * (a * b) + a * b
  {
    assert (cs * a + low) * b == (cs * a) * b + low * b;
    assert (cs * a) * b == cs * (a * b);
    MulDifference(a, low + 1, b);
    MulDifference(low + 1, low, b);
  }
}
