/** Huffman codes in the format's own terms: their order, the weights that stand for lengths, the order of a stream, an example. */
module HuffFacts {
  import opened Bits
  import opened BitStream
  import opened HuffCodes
  import opened HuffTables
  import opened HuffStream

  /** Codes rise from the longest to the shortest, and among those of one length from the lowest symbol to the highest. */
  lemma CodesInOrder(lens: seq<nat>, m: nat, s: nat, t: nat)
    requires Complete(lens, m) && s < |lens| && t < |lens| && lens[s] >= 1 && lens[t] >= 1 && s != t
    ensures Shl(Code(lens, m, s), m - lens[s]) < Shl(Code(lens, m, t), m - lens[t]) <==> lens[s] > lens[t] || (lens[s] == lens[t] && s < t)
  {
    hide Pow2, Level, RankStart, Start, Code, Shl;
    CodeIs(lens, m, s);
    CodeIs(lens, m, t);
    if lens[s] > lens[t] || (lens[s] == lens[t] && s < t) { Before(lens, m, s, t); } else { Before(lens, m, t, s); }
  }

  lemma Before(lens: seq<nat>, m: nat, s: nat, t: nat)
    requires s < |lens| && t < |lens| && 1 <= lens[s] <= m && 1 <= lens[t] <= m
    requires lens[s] > lens[t] || (lens[s] == lens[t] && s < t)
    ensures Start(lens, m, s) < Start(lens, m, t)
  {
    hide Pow2, Level, RankStart;
    if lens[s] == lens[t] {
      SameLevel(lens, m, s, t);
    } else {
      EndsBefore(lens, m, s);
      RankMono(lens, m, lens[t], lens[s] - 1);
      StartsAfter(lens, m, t);
    }
  }

  /** The first code of all is 0, and what one code uses up the next one begins behind. */
  lemma CodesLeaveNoGap(lens: seq<nat>, m: nat, u: nat)
    requires Complete(lens, m) && u < Pow2(m)
    ensures exists s :: 0 <= s < |lens| && lens[s] >= 1 && Code(lens, m, s) == Shr(u, m - lens[s])
  {
    hide Pow2, Level, RankStart, Start, Code, Shr, Low;
    var s := Covered(lens, m, u);
    CodeIs(lens, m, s);
    ShrOfShl(Code(lens, m, s), m - lens[s], u - Start(lens, m, s));
  }

  /** The example of the format: six symbols A to F with these weights, the last of which need not be sent. */
  const WEIGHTS: seq<nat> := [4, 3, 2, 0, 1, 1]
  const LENGTHS: seq<nat> := [1, 2, 3, 0, 4, 4]

  lemma WeightExample()
    ensures LensOf(WEIGHTS, 4) == LENGTHS && WeightsOf(LENGTHS, 4) == WEIGHTS
    ensures WeightShares(WEIGHTS[..5]) == 15 && WeightShare(WEIGHTS[5]) == 1
  {
    hide WeightShare;
    assert WEIGHTS[..5] == [4, 3, 2, 0] + [1] && [4, 3, 2, 0] == [4, 3, 2] + [0] && [4, 3, 2] == [4, 3] + [2] && [4, 3] == [4] + [3];
    assert [4] == [] + [4];
    OneShare([4, 3, 2, 0], 1);
    OneShare([4, 3, 2], 0);
    OneShare([4, 3], 2);
    OneShare([4], 3);
    OneShare([], 4);
    SmallShares();
  }

  lemma OneShare(ws: seq<nat>, w: nat)
    ensures WeightShares(ws + [w]) == WeightShares(ws) + WeightShare(w)
  {
    assert (ws + [w])[..|ws|] == ws;
  }

  lemma SmallShares()
    ensures WeightShares([]) == 0 && WeightShare(0) == 0 && WeightShare(1) == 1 && WeightShare(2) == 2 && WeightShare(3) == 4 && WeightShare(4) == 8
  {
    assert Pow2(3) == 8 && Pow2(2) == 4 && Pow2(1) == 2 && Pow2(0) == 1;
  }

  lemma CodeExample()
    ensures Complete(LENGTHS, 4)
    ensures Code(LENGTHS, 4, 0) == 1 && Code(LENGTHS, 4, 1) == 1 && Code(LENGTHS, 4, 2) == 1
    ensures Code(LENGTHS, 4, 4) == 0 && Code(LENGTHS, 4, 5) == 1
  {
    hide Level, RankStart;
    RankExample();
    LevelExample();
    assert Pow2(3) == 8 && Pow2(2) == 4 && Pow2(1) == 2 && Pow2(0) == 1 && Pow2(4) == 16;
    assert Shr(8, 3) == 1 && Shr(4, 2) == 1 && Shr(2, 1) == 1;
  }

  lemma LevelExample()
    ensures Level(LENGTHS, 1, 0) == 0 && Level(LENGTHS, 2, 1) == 0 && Level(LENGTHS, 3, 2) == 0 && Level(LENGTHS, 4, 4) == 0 && Level(LENGTHS, 4, 5) == 1
    ensures Level(LENGTHS, 1, 6) == 1 && Level(LENGTHS, 2, 6) == 1 && Level(LENGTHS, 3, 6) == 1 && Level(LENGTHS, 4, 6) == 2
  {
    forall l: nat
      ensures Level(LENGTHS, l, 3) == (if l == 1 then 1 else 0) + (if l == 2 then 1 else 0) + if l == 3 then 1 else 0
      ensures l >= 1 ==> Level(LENGTHS, l, 6) == Level(LENGTHS, l, 3) + if l == 4 then 2 else 0
    {
      assert Level(LENGTHS, l, 1) == Level(LENGTHS, l, 0) + if l == 1 then 1 else 0;
      assert Level(LENGTHS, l, 2) == Level(LENGTHS, l, 1) + if l == 2 then 1 else 0;
      assert Level(LENGTHS, l, 4) == Level(LENGTHS, l, 3) + if l == 0 then 1 else 0;
      assert Level(LENGTHS, l, 5) == Level(LENGTHS, l, 4) + if l == 4 then 1 else 0;
    }
  }

  lemma RankExample()
    ensures RankStart(LENGTHS, 4, 4) == 0 && RankStart(LENGTHS, 4, 3) == 2 && RankStart(LENGTHS, 4, 2) == 4
    ensures RankStart(LENGTHS, 4, 1) == 8 && RankStart(LENGTHS, 4, 0) == 16
  {
    hide Level;
    LevelExample();
    assert Pow2(3) == 8 && Pow2(2) == 4 && Pow2(1) == 2 && Pow2(0) == 1;
    assert RankStart(LENGTHS, 4, 3) == RankStart(LENGTHS, 4, 4) + 2 * Pow2(0);
    assert RankStart(LENGTHS, 4, 2) == RankStart(LENGTHS, 4, 3) + 1 * Pow2(1);
    assert RankStart(LENGTHS, 4, 1) == RankStart(LENGTHS, 4, 2) + 1 * Pow2(2);
  }

  /** A stream's bits are those of its second part, then those of its first: the first symbol's code comes last. */
  lemma {:induction false} StreamOfTwo(codes: seq<CTableEntry>, a: seq<nat>, b: seq<nat>, k: nat)
    requires Writable(codes, a + b) && k <= |a|
    ensures Writable(codes, a) && Writable(codes, b)
    ensures CodeBits(codes, a + b, k) == CodeBits(codes, b, 0) + CodeBits(codes, a, k)
    decreases |a| - k
  {
    hide BitsOf;
    PartsWritable(codes, a, b);
    if k == |a| {
      Moved(codes, a, b, 0);
      assert CodeBits(codes, b, 0) + [] == CodeBits(codes, b, 0);
    } else {
      StreamOfTwo(codes, a, b, k + 1);
      assert (a + b)[k] == a[k];
    }
  }

  lemma PartsWritable(codes: seq<CTableEntry>, a: seq<nat>, b: seq<nat>)
    requires Writable(codes, a + b)
    ensures Writable(codes, a) && Writable(codes, b)
  {
    forall i | 0 <= i < |a| ensures a[i] == (a + b)[i] {}
    forall i | 0 <= i < |b| ensures b[i] == (a + b)[|a| + i] {}
  }

  lemma {:induction false} Moved(codes: seq<CTableEntry>, a: seq<nat>, b: seq<nat>, k: nat)
    requires Writable(codes, a + b) && Writable(codes, b) && k <= |b|
    ensures CodeBits(codes, a + b, |a| + k) == CodeBits(codes, b, k)
    decreases |b| - k
  {
    hide BitsOf;
    if k < |b| {
      Moved(codes, a, b, k + 1);
      assert (a + b)[|a| + k] == b[k];
    }
  }

  lemma StreamOfOne(codes: seq<CTableEntry>, s: nat)
    requires Writable(codes, [s])
    ensures s < |codes| && CodeBits(codes, [s], 0) == BitsOf(codes[s].val, codes[s].nBits)
  {
    hide BitsOf;
    assert [s][0] == s;
    assert CodeBits(codes, [s], 1) == [];
    assert [] + BitsOf(codes[s].val, codes[s].nBits) == BitsOf(codes[s].val, codes[s].nBits);
  }
}
