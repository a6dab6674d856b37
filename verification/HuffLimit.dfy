/** Bringing the lengths of a Huffman tree down to a limit, in the array of nodes. */
module HuffLimit {
  import opened Bits
  import opened HuffTree
  import opened HuffBuild
  import opened HuffRepay
  import HuffTables

  /** No symbol of that length. */
  const NO_SYMBOL: nat := 0xF0F0_F0F0

  /** Entry r is the last symbol whose code is r bits shorter than m. */
  ghost predicate IsLast(e: nat, lens: seq<nat>, m: nat, r: nat)
  {
    if e == NO_SYMBOL then forall i :: 0 <= i < |lens| ==> lens[i] + r != m
    else e < |lens| && lens[e] + r == m && forall i :: e < i < |lens| ==> lens[i] > lens[e]
  }

  ghost predicate RanksOk(last: seq<nat>, lens: seq<nat>, m: nat)
  {
    |last| == HuffTables.TABLE_LOG_MAX + 2 && |lens| <= 256 && forall r :: 1 <= r < |last| ==> IsLast(last[r], lens, m, r)
  }

  /** A tree whose longest code has l bits, counted in codes of l bits. */
  lemma TreeIsWhole(lens: seq<nat>)
    requires TreeLens(lens) && lens != []
    ensures Whole(lens, lens[|lens| - 1])
  {
    hide Pow2, Shares;
    var n, l := |lens|, lens[|lens| - 1];
    ScaleShares(l, n - l, lens);
    Pow2Add(n - l, l);
    TimesLeft(Pow2(n - l), Shares(l, lens), Pow2(l));
    HuffTables.SameFactor(Shares(l, lens), Pow2(l), Pow2(n - l));
  }

  lemma TimesLeft(p: nat, a: nat, b: nat)
    ensures p * a == a * p && p * b == b * p
  {
  }

  lemma AlreadyLimited(lens: seq<nat>)
    requires lens != [] && Whole(lens, lens[|lens| - 1])
    ensures Limited(lens, lens[|lens| - 1])
  {
  }

  lemma LensSet(ns: seq<NodeElt>, n: nat, p: nat, v: nat)
    requires n < |ns| && p < n
    ensures Lens(ns[p + 1 := ns[p + 1].(nbBits := v)], n) == Lens(ns, n)[p := v]
  {
  }

  /** Changes one length. */
  method SetLen(node: array<NodeElt>, n: nat, p: nat, v: nat)
    requires n < node.Length && p < n
    modifies node
    ensures Lens(node[..], n) == old(Lens(node[..], n))[p := v] && SameLeaves(old(node[..]), node[..], n)
  {
    ghost var ns := node[..];
    node[p + 1] := node[p + 1].(nbBits := v);
    assert node[..] == ns[p + 1 := ns[p + 1].(nbBits := v)];
    LensSet(ns, n, p, v);
  }

  /** Cuts all codes to m bits and adds up what that costs; n is the last of the codes shorter than m. */
  method Clip(node: array<NodeElt>, count: nat, m: nat) returns (n: nat, cost: nat)
    requires 1 <= count < node.Length && Whole(Lens(node[..], count), node[count].nbBits) && 1 <= m < node[count].nbBits
    requires count <= Pow2(m)
    modifies node
    ensures Balanced(Lens(node[..], count), m, cost) && cost > 0
    ensures n < count && node[n + 1].nbBits < m && forall i :: n < i < count ==> Lens(node[..], count)[i] == m
    ensures SameLeaves(old(node[..]), node[..], count)
  {
    hide Whole, Clipped, Balanced, Pow2, Shr;
    ghost var orig := Lens(node[..], count);
    var largest := node[count].nbBits;
    var baseCost := Pow2(largest - m);
    n, cost := count - 1, 0;
    FirstClipped(orig, largest, m);
    while node[n + 1].nbBits > m
      invariant n < count && Clipped(orig, Lens(node[..], count), largest, m, n, cost)
      invariant n == count - 1 ==> cost == 0 && node[n + 1].nbBits > m
      invariant n < count - 1 ==> cost > 0
      invariant SameLeaves(old(node[..]), node[..], count)
      decreases n
    {
      ghost var lens := Lens(node[..], count);
      ClipOne(orig, lens, largest, m, n, cost);
      ClippedCost(orig, lens[n := m], largest, m, n - 1, cost + baseCost - Pow2(largest - lens[n]));
      LeftShort(orig, lens[n := m], largest, m, n - 1, cost + baseCost - Pow2(largest - lens[n]));
      cost := cost + baseCost - Pow2(largest - node[n + 1].nbBits);
      SetLen(node, count, n, m);
      n := n - 1;
    }
    ghost var lens := Lens(node[..], count);
    LeftShort(orig, lens, largest, m, n, cost);
    ClippedBalance(orig, lens, largest, m, n, cost);
    AllCut(orig, lens, largest, m, n, cost);
    while node[n + 1].nbBits == m
      invariant n < count && node[n + 1].nbBits <= m && lens == Lens(node[..], count) && lens[0] < m
      invariant forall i :: n < i < count ==> lens[i] == m
      invariant SameLeaves(old(node[..]), node[..], count)
      decreases n
    {
      BelowIs(lens, m, Shr(cost, largest - m), n);
      n := n - 1;
    }
    cost := Shr(cost, largest - m);
  }

  lemma BelowIs(lens: seq<nat>, m: nat, cost: int, n: nat)
    requires Balanced(lens, m, cost) && n < |lens|
    ensures n > 0 ==> lens[n - 1] <= m
  {
  }

  lemma FirstClipped(orig: seq<nat>, l: nat, m: nat)
    requires Whole(orig, l) && 1 <= m < l
    ensures Clipped(orig, orig, l, m, |orig| - 1, 0)
  {
  }

  lemma ClippedCost(orig: seq<nat>, lens: seq<nat>, l: nat, m: nat, n: int, cost: int)
    requires Clipped(orig, lens, l, m, n, cost) && n < |orig| - 1
    ensures cost > 0
  {
  }

  lemma AllCut(orig: seq<nat>, lens: seq<nat>, l: nat, m: nat, n: int, cost: int)
    requires Clipped(orig, lens, l, m, n, cost)
    ensures forall i :: n < i < |orig| ==> lens[i] == m
  {
  }

  // ----- the last symbol of each length -----

  /** Walks down from n and notes where the length changes. */
  method FindLast(node: array<NodeElt>, ghost count: nat, m: nat, n: nat) returns (rankLast: array<nat>)
    requires count < node.Length && n < count <= 256 && 1 <= m <= HuffTables.TABLE_LOG_MAX
    requires var lens := Lens(node[..], count); Rising(lens) && lens[n] < m && (forall i :: n < i < count ==> lens[i] == m) && forall i :: 0 <= i < count ==> lens[i] >= 1
    ensures fresh(rankLast) && RanksOk(rankLast[..], Lens(node[..], count), m)
  {
    hide LastFrom, RanksOk, Reached, Rising;
    ghost var lens := Lens(node[..], count);
    rankLast := new nat[HuffTables.TABLE_LOG_MAX + 2](_ => NO_SYMBOL);
    var current := m;
    var pos: int := n;
    NoneFound(lens, m, n);
    StartsAt(lens, m, n);
    while pos >= 0
      invariant -1 <= pos <= n && 1 <= current <= m
      invariant Reached(lens, m, current, pos)
      invariant current < m ==> rankLast[m - current] != NO_SYMBOL
      invariant forall r :: 1 <= r < rankLast.Length ==> LastFrom(rankLast[..][r], lens, m, r, pos)
    {
      var bits := node[pos + 1].nbBits;
      assert lens[pos] == bits;
      ghost var last := rankLast[..];
      ghost var rank: nat := pos;
      ghost var found := if bits < current then last[m - bits := rank] else last;
      FoundLast(last, lens, m, current, pos);
      NextReached(lens, m, current, pos);
      if bits < current {
        current := bits;
        rankLast[m - current] := pos;
      }
      assert rankLast[..] == found;
      pos := pos - 1;
    }
    AllFound(rankLast[..], lens, m);
  }

  /** Lengths up to pos are not above the current one and below m, and those behind not below it. */
  ghost predicate Reached(lens: seq<nat>, m: nat, current: nat, pos: int)
  {
    && -1 <= pos < |lens| && Rising(lens)
    && (forall i :: pos < i < |lens| ==> lens[i] >= current) && forall i :: 0 <= i <= pos ==> lens[i] <= current && lens[i] < m
  }

  lemma StartsAt(lens: seq<nat>, m: nat, n: nat)
    requires Rising(lens) && n < |lens| && lens[n] < m && forall i :: n < i < |lens| ==> lens[i] == m
    ensures Reached(lens, m, m, n)
  {
  }

  lemma NextReached(lens: seq<nat>, m: nat, current: nat, pos: nat)
    requires Reached(lens, m, current, pos)
    ensures pos < |lens| && lens[pos] <= current && lens[pos] < m
    ensures Reached(lens, m, if lens[pos] < current then lens[pos] else current, pos - 1)
  {
  }

  lemma NoneFound(lens: seq<nat>, m: nat, n: nat)
    requires n < |lens| && forall i :: n < i < |lens| ==> lens[i] == m
    ensures forall r: nat :: 1 <= r ==> LastFrom(NO_SYMBOL, lens, m, r, n)
  {
  }

  /** One symbol further down. */
  lemma FoundLast(last: seq<nat>, lens: seq<nat>, m: nat, current: nat, pos: nat)
    requires m <= HuffTables.TABLE_LOG_MAX && |last| == HuffTables.TABLE_LOG_MAX + 2 && 1 <= current <= m && pos < |lens| < NO_SYMBOL
    requires Reached(lens, m, current, pos) && lens[pos] >= 1
    requires current < m ==> last[m - current] != NO_SYMBOL
    requires forall r :: 1 <= r < |last| ==> LastFrom(last[r], lens, m, r, pos)
    ensures var last' := if lens[pos] < current then last[m - lens[pos] := pos] else last;
            forall r :: 1 <= r < |last| ==> LastFrom(last'[r], lens, m, r, pos - 1)
  {
  }

  lemma AllFound(last: seq<nat>, lens: seq<nat>, m: nat)
    requires |last| == HuffTables.TABLE_LOG_MAX + 2 && |lens| <= 256 && forall r :: 1 <= r < |last| ==> LastFrom(last[r], lens, m, r, -1)
    ensures RanksOk(last, lens, m)
  {
  }

  /** The same, looking only behind pos. */
  ghost predicate LastFrom(e: nat, lens: seq<nat>, m: nat, r: nat, pos: int)
  {
    if e == NO_SYMBOL then forall i :: 0 <= i < |lens| && i > pos ==> lens[i] + r != m
    else pos < e < |lens| && lens[e] + r == m && forall i :: e < i < |lens| ==> lens[i] > lens[e]
  }

  // ----- paying -----

  function WeightAt(ns: seq<NodeElt>, p: nat): nat { if p + 1 < |ns| then ns[p + 1].count else 0 }

  /** Lengthening the symbol of rank i would need more bits than lengthening two of the rank below. */
  predicate Dear(ns: seq<NodeElt>, last: seq<nat>, i: nat)
    requires 1 <= i < |last|
  {
    last[i - 1] != NO_SYMBOL && WeightAt(ns, last[i]) > 2 * WeightAt(ns, last[i - 1])
  }

  lemma DearIs(ns: seq<NodeElt>, last: seq<nat>, i: nat)
    requires 1 <= i < |last|
    ensures Dear(ns, last, i) <==> last[i - 1] != NO_SYMBOL && WeightAt(ns, last[i]) > 2 * WeightAt(ns, last[i - 1])
  {
  }

  /** Of the ranks up to k, the highest one in use that is not too dear; rank 1 never is, and a higher one is taken only if there is none. */
  predicate Cheapest(ns: seq<NodeElt>, last: seq<nat>, r: nat, k: nat)
    requires 1 <= r < |last|
  {
    && k < |last|
    && (forall i :: r < i <= k && last[i] != NO_SYMBOL ==> Dear(ns, last, i))
    && (1 < r <= k ==> !Dear(ns, last, r))
    && (forall i :: k < i < r ==> last[i] == NO_SYMBOL)
  }

  /** A length that pays at most the cost if there is one, or else the shortest of all there are. */
  method Choose(node: array<NodeElt>, rankLast: array<nat>, ghost lens: seq<nat>, m: nat, cost: nat) returns (r: nat)
    requires RanksOk(rankLast[..], lens, m) && Balanced(lens, m, cost) && cost > 0 && 1 <= m <= HuffTables.TABLE_LOG_MAX && node.Length > |lens|
    ensures 1 <= r <= HuffTables.TABLE_LOG_MAX + 1 && rankLast[r] != NO_SYMBOL
    ensures Pow2(r - 1) <= cost || forall i :: 1 <= i < r ==> rankLast[i] == NO_SYMBOL
    ensures Cheapest(node[..], rankLast[..], r, BitLen(cost))
  {
    hide Balanced, Pow2, Dear, Cheapest, RanksOk, IsLast, BitLen;
    RankOne(rankLast[..], lens, m);
    CostBelow(lens, m, cost);
    BitLenRange(cost);
    var k := BitLen(cost);
    ghost var most := TopRank(rankLast[..], lens, m, cost);
    r := k;
    while r > 1
      invariant 1 <= r <= k
      invariant forall i :: r < i <= k && rankLast[i] != NO_SYMBOL ==> rankLast[i - 1] != NO_SYMBOL && Dear(node[..], rankLast[..], i)
    {
      DearIs(node[..], rankLast[..], r);
      var highPos := rankLast[r];
      var lowPos := rankLast[r - 1];
      if highPos != NO_SYMBOL {
        if lowPos == NO_SYMBOL { break; }
        RankIs(rankLast[..], lens, m, r);
        RankIs(rankLast[..], lens, m, r - 1);
        var highTotal := node[highPos + 1].count;
        var lowTotal := 2 * node[lowPos + 1].count;
        if highTotal <= lowTotal { break; }
      }
      r := r - 1;
    }
    CheapestFound(node[..], rankLast[..], r, k);
    if rankLast[r] == NO_SYMBOL { NoneBelow(rankLast[..], k); } else { Pow2Mono(r - 1, k - 1); }
    while r <= HuffTables.TABLE_LOG_MAX && rankLast[r] == NO_SYMBOL
      invariant 1 <= r <= HuffTables.TABLE_LOG_MAX + 1
      invariant rankLast[r] != NO_SYMBOL ==> Pow2(r - 1) <= cost || forall i :: 1 <= i < r ==> rankLast[i] == NO_SYMBOL
      invariant Cheapest(node[..], rankLast[..], r, k)
      invariant rankLast[r] == NO_SYMBOL ==> r <= most && forall i :: 1 <= i < r ==> rankLast[i] == NO_SYMBOL
    {
      CheapestNext(node[..], rankLast[..], r, k);
      r := r + 1;
    }
  }

  lemma CheapestFound(ns: seq<NodeElt>, last: seq<nat>, r: nat, k: nat)
    requires 1 <= r <= k < |last| && (r > 1 ==> !Dear(ns, last, r)) && forall i :: r < i <= k && last[i] != NO_SYMBOL ==> Dear(ns, last, i)
    ensures Cheapest(ns, last, r, k)
  {
  }

  lemma CheapestNext(ns: seq<NodeElt>, last: seq<nat>, r: nat, k: nat)
    requires 1 <= r < |last| - 1 && Cheapest(ns, last, r, k) && last[r] == NO_SYMBOL
    ensures Cheapest(ns, last, r + 1, k)
  {
  }

  /** Not more is owed than there are symbols of m bits. */
  lemma CostBelow(lens: seq<nat>, m: nat, cost: nat)
    requires Balanced(lens, m, cost)
    ensures BitLen(cost) <= m
  {
    hide Pow2, Shares, Short;
    LongBelow(m, lens);
    BitLenBound(cost, m);
  }

  /** Some length shorter than m has symbols. */
  lemma TopRank(last: seq<nat>, lens: seq<nat>, m: nat, cost: nat) returns (r: nat)
    requires RanksOk(last, lens, m) && Balanced(lens, m, cost) && cost > 0 && m <= HuffTables.TABLE_LOG_MAX
    ensures 1 <= r < m && last[r] != NO_SYMBOL
  {
    hide Shares, Short, Pow2;
    SomeShort(lens, m, cost);
    r := m - lens[0];
  }

  lemma RankIs(last: seq<nat>, lens: seq<nat>, m: nat, r: nat)
    requires RanksOk(last, lens, m) && 1 <= r < |last| && last[r] != NO_SYMBOL
    ensures last[r] < |lens| && lens[last[r]] + r == m
  {
  }

  lemma {:induction false} NoneBelow(last: seq<nat>, k: nat)
    requires 1 <= k < |last| && last[1] == NO_SYMBOL
    requires forall i :: 1 < i <= k && last[i] != NO_SYMBOL ==> last[i - 1] != NO_SYMBOL
    ensures forall i :: 1 <= i <= k ==> last[i] == NO_SYMBOL
    decreases k
  {
    if k > 1 {
      NoneBelow(last, k - 1);
      assert last[k - 1] == NO_SYMBOL;
    }
  }

  /** The table of last symbols after the last one of r bits below m has got one bit more. */
  function Moved(last: seq<nat>, lens: seq<nat>, m: nat, r: nat): (last': seq<nat>)
    requires 1 <= r < |last| && last[r] < |lens|
  {
    var p := last[r];
    var up := if last[r - 1] == NO_SYMBOL then last[r - 1 := p] else last;
    up[r := if p > 0 && lens[p - 1] + r == m then p - 1 else NO_SYMBOL]
  }

  lemma MovedOk(last: seq<nat>, lens: seq<nat>, m: nat, r: nat)
    requires RanksOk(last, lens, m) && Rising(lens) && 1 <= r < |last| && last[r] != NO_SYMBOL
    ensures last[r] < |lens| && RanksOk(Moved(last, lens, m, r), lens[last[r] := lens[last[r]] + 1], m)
  {
    RankIs(last, lens, m, r);
    var p := last[r];
    var lens' := lens[p := lens[p] + 1];
    var last' := Moved(last, lens, m, r);
    forall q | 1 <= q < |last| ensures IsLast(last'[q], lens', m, q) {
      assert IsLast(last[q], lens, m, q) && IsLast(last[r], lens, m, r);
    }
  }

  lemma OthersLower(last: seq<nat>, lens: seq<nat>, m: nat, r: nat)
    requires RanksOk(last, lens, m) && 1 <= r < |last| && (forall i :: 1 <= i < r ==> last[i] == NO_SYMBOL) && forall i :: 0 <= i < |lens| ==> lens[i] <= m
    ensures forall i :: 0 <= i < |lens| ==> lens[i] == m || lens[i] <= m - r
  {
    forall i | 0 <= i < |lens| ensures lens[i] == m || lens[i] <= m - r {
      var q := m - lens[i];
      assert 1 <= q < |last| ==> IsLast(last[q], lens, m, q);
    }
  }

  lemma BalancedIs(lens: seq<nat>, m: nat, cost: int)
    requires Balanced(lens, m, cost)
    ensures lens != [] && |lens| <= Pow2(m) && Rising(lens) && forall i :: 0 <= i < |lens| ==> 1 <= lens[i] <= m
  {
  }

  /** What one payment leads to. */
  lemma Paid(last: seq<nat>, lens: seq<nat>, m: nat, cost: nat, r: nat, n: nat)
    requires RanksOk(last, lens, m) && Balanced(lens, m, cost) && cost > 0 && 1 <= r < |last| && last[r] != NO_SYMBOL
    requires Pow2(r - 1) <= cost || forall i :: 1 <= i < r ==> last[i] == NO_SYMBOL
    requires forall i :: n < i < |lens| ==> lens[i] == m
    ensures last[r] < |lens| && lens[last[r]] + r == m
    ensures var lens' := lens[last[r] := lens[last[r]] + 1];
            && Balanced(lens', m, cost - Pow2(r - 1)) && RanksOk(Moved(last, lens, m, r), lens', m)
            && (forall i :: n < i < |lens| ==> lens'[i] == m)
            && (cost < Pow2(r - 1) ==> lens'[0] < m && m >= 2)
  {
    hide Balanced, Pow2, RanksOk;
    BalancedIs(lens, m, cost);
    RankIs(last, lens, m, r);
    if cost < Pow2(r - 1) { OthersLower(last, lens, m, r); }
    PowersToByte();
    BehindLast(last, lens, m, r);
    Lengthen(lens, m, cost, last[r], r);
    MovedOk(last, lens, m, r);
    BalancedIs(lens[last[r] := lens[last[r]] + 1], m, cost - Pow2(r - 1));
  }

  lemma BehindLast(last: seq<nat>, lens: seq<nat>, m: nat, r: nat)
    requires RanksOk(last, lens, m) && 1 <= r < |last| && last[r] != NO_SYMBOL
    ensures last[r] < |lens| && forall i :: last[r] < i < |lens| ==> lens[i] > lens[last[r]]
  {
  }

  /** Lengthens codes until the cost is paid. */
  method Pay(node: array<NodeElt>, count: nat, rankLast: array<nat>, m: nat, cost0: nat, ghost n: nat) returns (cost: int)
    requires count < node.Length && RanksOk(rankLast[..], Lens(node[..], count), m) && Balanced(Lens(node[..], count), m, cost0) && cost0 > 0
    requires 1 <= m <= HuffTables.TABLE_LOG_MAX && forall i :: n < i < count ==> Lens(node[..], count)[i] == m
    modifies node, rankLast
    ensures cost <= 0 && Balanced(Lens(node[..], count), m, cost) && RanksOk(rankLast[..], Lens(node[..], count), m)
    ensures forall i :: n < i < count ==> Lens(node[..], count)[i] == m
    ensures cost < 0 ==> Lens(node[..], count)[0] < m && m >= 2
    ensures SameLeaves(old(node[..]), node[..], count)
  {
    hide Balanced, RanksOk, Pow2;
    cost := cost0;
    while cost > 0
      invariant Balanced(Lens(node[..], count), m, cost) && RanksOk(rankLast[..], Lens(node[..], count), m)
      invariant forall i :: n < i < count ==> Lens(node[..], count)[i] == m
      invariant cost < 0 ==> count > 0 && Lens(node[..], count)[0] < m && m >= 2
      invariant SameLeaves(old(node[..]), node[..], count)
      decreases cost
    {
      ghost var last, lens := rankLast[..], Lens(node[..], count);
      var r := Choose(node, rankLast, lens, m, cost);
      RankOne(last, lens, m);
      Paid(last, lens, m, cost, r, n);
      cost := cost - Pow2(r - 1);
      LengthenLast(node, count, rankLast, m, r);
    }
  }

  /** One bit more for the last symbol of a length, which moves it to the next length. */
  method LengthenLast(node: array<NodeElt>, count: nat, rankLast: array<nat>, m: nat, r: nat)
    requires count < node.Length && 1 <= r < rankLast.Length && rankLast[r] < count
    modifies node, rankLast
    ensures rankLast[..] == Moved(old(rankLast[..]), old(Lens(node[..], count)), m, r)
    ensures Lens(node[..], count) == old(var lens, p := Lens(node[..], count), rankLast[r]; lens[p := lens[p] + 1])
    ensures SameLeaves(old(node[..]), node[..], count)
  {
    ghost var last, lens := rankLast[..], Lens(node[..], count);
    var p := rankLast[r];
    if rankLast[r - 1] == NO_SYMBOL { rankLast[r - 1] := p; }
    ghost var up := rankLast[..];
    assert up == if last[r - 1] == NO_SYMBOL then last[r - 1 := p] else last;
    SetLen(node, count, p, node[p + 1].nbBits + 1);
    if p == 0 {
      rankLast[r] := NO_SYMBOL;
    } else {
      rankLast[r] := p - 1;
      assert Lens(node[..], count)[p - 1] == lens[p - 1];
      if node[rankLast[r] + 1].nbBits + r != m { rankLast[r] := NO_SYMBOL; }
    }
    assert rankLast[..] == up[r := rankLast[r]];
  }

  // ----- taking back what was paid too much -----

  /** The first symbol with a code of m bits, where the shorter ones end. */
  lemma FirstLong(lens: seq<nat>, m: nat, cost: int, p: nat)
    requires Balanced(lens, m, cost) && cost < 0 && 1 <= p <= |lens| && lens[p - 1] < m && forall i :: p <= i < |lens| ==> lens[i] == m
    ensures p < |lens| && lens[p] == m && forall i :: 0 <= i < p ==> lens[i] < m
  {
    hide Shares, Short;
    SomeLong(lens, m, cost);
  }

  lemma AfterLast(e: nat, lens: seq<nat>, m: nat, cost: int)
    requires Balanced(lens, m, cost) && IsLast(e, lens, m, 1) && e != NO_SYMBOL
    ensures e < |lens| && lens[e] < m && forall i :: e < i < |lens| ==> lens[i] == m
  {
  }

  lemma NowLast(lens: seq<nat>, m: nat, p: nat)
    requires p < |lens| < NO_SYMBOL && m >= 1 && forall i :: p <= i < |lens| ==> lens[i] == m
    ensures IsLast(p, lens[p := m - 1], m, 1)
  {
  }

  /** Shortens codes of m bits until the books are even. */
  method TakeBack(node: array<NodeElt>, count: nat, rankLast: array<nat>, m: nat, cost0: int, n0: nat)
    requires n0 < count < node.Length && count <= 256 && rankLast.Length > 1
    requires var lens := Lens(node[..], count);
             && Balanced(lens, m, cost0) && cost0 <= 0 && IsLast(rankLast[1], lens, m, 1)
             && (forall i :: n0 < i < count ==> lens[i] == m) && (cost0 < 0 ==> lens[0] < m && m >= 2)
    modifies node, rankLast
    ensures Limited(Lens(node[..], count), m) && SameLeaves(old(node[..]), node[..], count)
  {
    hide Balanced, IsLast, Limited;
    var cost := cost0;
    var n: nat := n0;
    while cost < 0
      invariant n < count && cost <= 0 && Balanced(Lens(node[..], count), m, cost) && IsLast(rankLast[1], Lens(node[..], count), m, 1)
      invariant rankLast[1] == NO_SYMBOL ==> forall i :: n < i < count ==> Lens(node[..], count)[i] == m
      invariant cost < 0 ==> Lens(node[..], count)[0] < m && m >= 2
      invariant SameLeaves(old(node[..]), node[..], count)
      decreases -cost
    {
      ghost var lens := Lens(node[..], count);
      ghost var ns := node[..];
      BalancedIs(lens, m, cost);
      if rankLast[1] == NO_SYMBOL {
        while node[n + 1].nbBits == m
          invariant n < count && node[..] == ns
          invariant forall i :: n < i < count ==> lens[i] == m
          decreases n
        {
          assert lens[n] == m;
          n := n - 1;
        }
        assert lens[n] < m;
        rankLast[1] := n;
      } else {
        AfterLast(rankLast[1], lens, m, cost);
      }
      var p := rankLast[1] + 1;
      FirstLong(lens, m, cost, p);
      Shorten(lens, m, cost, p);
      NowLast(lens, m, p);
      SetLen(node, count, p, node[p + 1].nbBits - 1);
      rankLast[1] := p;
      cost := cost + 1;
    }
    Settled(Lens(node[..], count), m);
  }

  /** Brings all codes down to maxNbBits bits, unless they already are there; what is left is the length of the longest. */
  method SetMaxHeight(node: array<NodeElt>, count: nat, maxNbBits: nat) returns (m: nat)
    requires 1 <= count < node.Length && count <= 256 && Whole(Lens(node[..], count), node[count].nbBits)
    requires 1 <= maxNbBits <= HuffTables.TABLE_LOG_MAX && count <= Pow2(maxNbBits)
    modifies node
    ensures Limited(Lens(node[..], count), m) && m <= maxNbBits && SameLeaves(old(node[..]), node[..], count)
    ensures old(node[count].nbBits) <= maxNbBits ==> node[..] == old(node[..])
  {
    hide Whole, Balanced, Limited, RanksOk, Pow2, IsLast;
    var largestBits := node[count].nbBits;
    if largestBits <= maxNbBits {
      AlreadyLimited(Lens(node[..], count));
      return largestBits;
    }
    m := maxNbBits;
    var n, cost := Clip(node, count, m);
    BalancedIs(Lens(node[..], count), m, cost);
    var rankLast := FindLast(node, count, m, n);
    var rest := Pay(node, count, rankLast, m, cost, n);
    RankOne(rankLast[..], Lens(node[..], count), m);
    TakeBack(node, count, rankLast, m, rest, n);
  }

  lemma RankOne(last: seq<nat>, lens: seq<nat>, m: nat)
    requires RanksOk(last, lens, m)
    ensures |last| == HuffTables.TABLE_LOG_MAX + 2 && IsLast(last[1], lens, m, 1)
  {
  }
}
