/** A Huffman code against every other prefix code: the stream of a block is as short as any. */
module HuffLeast {
  import opened Bits
  import opened Counting
  import opened HuffTables
  import opened HuffTableBuild
  import HuffTree
  import HuffOptimal
  import opened HuffStream

  // ----- prefix codes share out what there is -----

  /** Codes of at most l bits, none of which is the beginning of another. */
  predicate IsPrefixCode(codes: seq<CTableEntry>, l: nat)
  {
    && CodesOk(codes, l) && (forall s :: 0 <= s < |codes| ==> codes[s].nBits <= l)
    && forall s, t :: 0 <= s < |codes| && 0 <= t < |codes| && s != t && 1 <= codes[s].nBits <= codes[t].nBits ==> Apart(codes[s], codes[t])
  }

  predicate Apart(c: CTableEntry, d: CTableEntry)
    requires c.nBits <= d.nBits
  {
    Shr(d.val, d.nBits - c.nBits) != c.val
  }

  function Range(a: nat, n: nat): (r: set<nat>)
    ensures (forall u :: u in r <==> a <= u < a + n) && |r| == n
  {
    if n == 0 then {} else Range(a, n - 1) + {a + n - 1}
  }

  /** All values of l bits that begin with the code. */
  function Beginning(c: CTableEntry, l: nat): (r: set<nat>)
    requires c.nBits <= l
  {
    Range(c.val * Pow2(l - c.nBits), Pow2(l - c.nBits))
  }

  lemma BeginsWith(c: CTableEntry, l: nat, u: nat)
    requires 1 <= c.nBits <= l && c.val < Pow2(c.nBits) && u in Beginning(c, l)
    ensures Shr(u, l - c.nBits) == c.val && u < Pow2(l)
  {
    hide Pow2, Shr, Low;
    var n := l - c.nBits;
    ShlAt(c.val, n);
    ShrOfShl(c.val, n, u - c.val * Pow2(n));
    Pow2Add(c.nBits, n);
    MulStep(c.val, Pow2(c.nBits), Pow2(n));
  }

  lemma ShlAt(v: nat, n: nat)
    ensures Shl(v, n) == v * Pow2(n)
  {
  }

  lemma NoCommonValue(c: CTableEntry, d: CTableEntry, l: nat)
    requires 1 <= c.nBits <= d.nBits <= l && c.val < Pow2(c.nBits) && d.val < Pow2(d.nBits) && Apart(c, d)
    ensures Beginning(c, l) !! Beginning(d, l)
  {
    hide Pow2, Shr, Beginning;
    forall u | u in Beginning(c, l) && u in Beginning(d, l) ensures false {
      BeginsWith(c, l, u);
      BeginsWith(d, l, u);
      ShrAdd(u, l - d.nBits, d.nBits - c.nBits);
    }
  }

  /** All values that begin with one of the first n codes. */
  function Used(codes: seq<CTableEntry>, l: nat, n: nat): set<nat>
    requires n <= |codes| && IsPrefixCode(codes, l)
  {
    if n == 0 then {} else Used(codes, l, n - 1) + if codes[n - 1].nBits >= 1 then Beginning(codes[n - 1], l) else {}
  }

  lemma {:induction false} UsedApart(codes: seq<CTableEntry>, l: nat, n: nat, k: nat)
    requires n <= k < |codes| && IsPrefixCode(codes, l) && codes[k].nBits >= 1
    ensures Used(codes, l, n) !! Beginning(codes[k], l)
    decreases n
  {
    hide Pow2, Beginning, Apart;
    if n > 0 {
      UsedApart(codes, l, n - 1, k);
      var c, d := codes[n - 1], codes[k];
      if c.nBits >= 1 {
        if c.nBits <= d.nBits { NoCommonValue(c, d, l); } else { NoCommonValue(d, c, l); }
      }
    }
  }

  lemma {:induction false} UsedSize(codes: seq<CTableEntry>, lens: seq<nat>, l: nat, n: nat)
    requires n <= |codes| == |lens| && IsPrefixCode(codes, l) && forall s :: 0 <= s < |lens| ==> codes[s].nBits == lens[s]
    ensures |Used(codes, l, n)| == Sum(Taken(lens, l), n) && forall u :: u in Used(codes, l, n) ==> u < Pow2(l)
    decreases n
  {
    hide Pow2, Beginning, IsPrefixCode;
    if n > 0 {
      PrefixCodeIs(codes, l);
      UsedSize(codes, lens, l, n - 1);
      var c := codes[n - 1];
      if c.nBits >= 1 {
        UsedApart(codes, l, n - 1, n - 1);
        BothSizes(Used(codes, l, n - 1), Beginning(c, l), Used(codes, l, n));
        BeginningSize(c, l);
        forall u | u in Beginning(c, l) ensures u < Pow2(l) { BeginsWith(c, l, u); }
      }
    }
  }

  lemma PrefixCodeIs(codes: seq<CTableEntry>, l: nat)
    requires IsPrefixCode(codes, l)
    ensures forall s :: 0 <= s < |codes| ==> codes[s].nBits <= l && (codes[s].nBits >= 1 ==> codes[s].val < Pow2(codes[s].nBits))
  {
    hide Pow2;
  }

  lemma BothSizes(a: set<nat>, b: set<nat>, c: set<nat>)
    requires a !! b && c == a + b
    ensures |c| == |a| + |b|
  {
  }

  lemma BeginningSize(c: CTableEntry, l: nat)
    requires c.nBits <= l
    ensures |Beginning(c, l)| == Pow2(l - c.nBits)
  {
  }

  /** Kraft's inequality for any prefix code. */
  lemma PrefixCodePossible(codes: seq<CTableEntry>, counts: seq<nat>, lens: seq<nat>, l: nat)
    requires |codes| == |counts| == |lens| && IsPrefixCode(codes, l)
    requires forall s :: 0 <= s < |lens| ==> codes[s].nBits == lens[s] && (counts[s] >= 1 ==> lens[s] >= 1)
    ensures Possible(counts, lens, l)
  {
    hide Pow2, Sum, Used, Apart, CodesOk;
    UsedSize(codes, lens, l, |codes|);
    SubsetSize(Used(codes, l, |codes|), Below(Pow2(l)));
  }

  // ----- the bits of a block -----

  lemma {:induction false} LengthFrom(codes: seq<CTableEntry>, src: seq<nat>, lens: seq<nat>, k: nat)
    requires Writable(codes, src) && |codes| == |lens| && k <= |src| && forall s :: 0 <= s < |lens| ==> codes[s].nBits == lens[s]
    ensures |CodeBits(codes, src, k)| + HuffTree.SumAt(src[..k], lens) == HuffTree.SumAt(src, lens)
    decreases |src| - k
  {
    if k == |src| {
      assert src[..k] == src;
    } else {
      LengthFrom(codes, src, lens, k + 1);
      assert src[..k + 1][..k] == src[..k];
    }
  }

  lemma {:induction false} CountedCost(src: seq<nat>, counts: seq<nat>, lens: seq<nat>, n: nat)
    requires n <= |counts| == |lens| && forall v: nat :: v < |counts| ==> Count(src, v) == counts[v]
    ensures HuffTree.SumTimes(src, lens, n) == HuffOptimal.Cost(counts[..n], lens[..n])
    decreases n
  {
    hide Count;
    if n > 0 {
      CountedCost(src, counts, lens, n - 1);
      assert counts[..n][..n - 1] == counts[..n - 1] && lens[..n][..n - 1] == lens[..n - 1];
    }
  }

  /** A block takes for every symbol as many times the length of its code as the symbol occurs. */
  lemma BlockLength(codes: seq<CTableEntry>, src: seq<nat>, counts: seq<nat>, lens: seq<nat>)
    requires Writable(codes, src) && |codes| == |lens| == |counts| && forall s :: 0 <= s < |lens| ==> codes[s].nBits == lens[s]
    requires forall v: nat :: v < |counts| ==> Count(src, v) == counts[v]
    ensures |CodeBits(codes, src, 0)| == HuffOptimal.Cost(counts, lens)
  {
    hide Count, CodeBits, HuffTree.SumAt, HuffTree.SumTimes, HuffOptimal.Cost;
    LengthFrom(codes, src, lens, 0);
    NothingAt(lens);
    assert src[..0] == [];
    HuffTree.CountTwice(src, lens);
    CountedCost(src, counts, lens, |lens|);
    assert counts[..|lens|] == counts && lens[..|lens|] == lens;
  }

  lemma NothingAt(lens: seq<nat>)
    ensures HuffTree.SumAt([], lens) == 0
  {
  }

  /** With the lengths of a Huffman tree, no prefix code whatever makes the block shorter. */
  lemma ShortestStream(codes: seq<CTableEntry>, others: seq<CTableEntry>, l: nat, src: seq<nat>, counts: seq<nat>, lens: seq<nat>)
    requires LeastBits(counts, lens) && |codes| == |others| == |counts| && Writable(codes, src) && Writable(others, src)
    requires forall s :: 0 <= s < |lens| ==> codes[s].nBits == lens[s]
    requires forall v: nat :: v < |counts| ==> Count(src, v) == counts[v]
    requires IsPrefixCode(others, l)
    ensures |CodeBits(codes, src, 0)| <= |CodeBits(others, src, 0)|
  {
    hide Count, CodeBits, HuffOptimal.Cost, IsPrefixCode, Possible;
    var lens' := Lengths(others);
    BlockLength(codes, src, counts, lens);
    BlockLength(others, src, counts, lens');
    forall s | 0 <= s < |counts| && counts[s] >= 1 ensures lens'[s] >= 1 { Occurring(src, s); }
    PrefixCodePossible(others, counts, lens', l);
  }

  function Lengths(codes: seq<CTableEntry>): (lens: seq<nat>)
    ensures |lens| == |codes| && forall s :: 0 <= s < |codes| ==> lens[s] == codes[s].nBits
  {
    seq(|codes|, s requires 0 <= s < |codes| => codes[s].nBits)
  }

  lemma {:induction false} Occurring(src: seq<nat>, v: nat)
    requires Count(src, v) >= 1
    ensures v in src
    decreases |src|
  {
    if src != [] && src[|src| - 1] != v { Occurring(src[..|src| - 1], v); }
  }
}
