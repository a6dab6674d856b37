/** Sorting the symbols of a histogram by falling count: into buckets by bit length, each kept in order. */
module HuffSort {
  import opened Bits
  import opened HuffBuild
  import HuffCodes

  /** One more than any bit length of a block's counts. */
  const MAX_BIT_LENGTH: nat := 19
  const NODES_LEN: nat := 512
  const MAX_COUNT: nat := 0x3_FFFF

  /** The bucket of every count. */
  function Buckets(counts: seq<nat>): (hs: seq<nat>)
    ensures |hs| == |counts| && forall i :: 0 <= i < |counts| ==> hs[i] == HighBit(counts[i] + 1)
  {
    seq(|counts|, i requires 0 <= i < |counts| => HighBit(counts[i] + 1))
  }

  /** How many of the first k counts are in bucket h or one above. */
  function AtLeast(hs: seq<nat>, h: nat, k: nat): (n: nat)
    requires k <= |hs|
    ensures n <= k
  {
    if k == 0 then 0 else AtLeast(hs, h, k - 1) + if hs[k - 1] >= h then 1 else 0
  }

  lemma {:induction false} AtLeastNext(hs: seq<nat>, h: nat, k: nat)
    requires k <= |hs|
    ensures AtLeast(hs, h, k) == AtLeast(hs, h + 1, k) + HuffCodes.Level(hs, h, k)
    decreases k
  {
    if k > 0 { AtLeastNext(hs, h, k - 1); }
  }

  lemma {:induction false} AtLeastNone(hs: seq<nat>, h: nat, k: nat)
    requires k <= |hs| && forall i :: 0 <= i < k ==> hs[i] < h
    ensures AtLeast(hs, h, k) == 0
    decreases k
  {
    if k > 0 { AtLeastNone(hs, h, k - 1); }
  }

  lemma {:induction false} AtLeastAll(hs: seq<nat>, k: nat)
    requires k <= |hs|
    ensures AtLeast(hs, 0, k) == k
    decreases k
  {
    if k > 0 { AtLeastAll(hs, k - 1); }
  }

  lemma {:induction false} AtLeastFalls(hs: seq<nat>, a: nat, b: nat, k: nat)
    requires a <= b && k <= |hs|
    ensures AtLeast(hs, b, k) <= AtLeast(hs, a, k)
    decreases k
  {
    if k > 0 { AtLeastFalls(hs, a, b, k - 1); }
  }

  lemma HighBitMono(a: nat, b: nat)
    requires 1 <= a <= b
    ensures HighBit(a) <= HighBit(b)
  {
    hide Pow2, BitLen;
    BitLenRange(a);
    BitLenRange(b);
    if HighBit(a) > HighBit(b) { Pow2Mono(HighBit(b) + 1, HighBit(a)); Pow2Next(HighBit(b)); }
  }

  lemma HighBitSmall(c: nat)
    requires c <= MAX_COUNT
    ensures HighBit(c + 1) < MAX_BIT_LENGTH
  {
    hide BitLen;
    assert Pow2(19) == 0x8_0000 by { assert Pow2(9) == 512; assert Pow2(10) == 1024; Pow2Add(9, 10); }
    BitLenBound(c + 1, 19);
    BitLenPositive(c + 1);
  }

  /** Where every bucket begins: behind all higher ones. */
  method Bases(counts: seq<nat>) returns (base: array<nat>)
    requires forall i :: 0 <= i < |counts| ==> counts[i] <= MAX_COUNT
    ensures fresh(base) && base.Length == 32
    ensures forall h :: 0 <= h <= MAX_BIT_LENGTH ==> base[h] == AtLeast(Buckets(counts), h, |counts|)
  {
    hide HighBit, HuffCodes.Level, AtLeast;
    ghost var hs, n := Buckets(counts), |counts|;
    base := new nat[32](_ => 0);
    SmallBuckets(counts);
    NoLevel(hs);
    for i := 0 to |counts|
      invariant forall h :: 0 <= h <= MAX_BIT_LENGTH ==> base[h] == HuffCodes.Level(hs, h, i)
    {
      LevelNext(hs, i);
      var r := HighBit(counts[i] + 1);
      base[r] := base[r] + 1;
    }
    AtLeastNone(hs, MAX_BIT_LENGTH, n);
    AtLeastNone(hs, MAX_BIT_LENGTH + 1, n);
    AtLeastNext(hs, MAX_BIT_LENGTH, n);
    var m := MAX_BIT_LENGTH;
    while m > 0
      invariant 0 <= m <= MAX_BIT_LENGTH
      invariant forall h :: 0 <= h < m ==> base[h] == HuffCodes.Level(hs, h, n)
      invariant forall h :: m <= h <= MAX_BIT_LENGTH ==> base[h] == AtLeast(hs, h, n)
    {
      AtLeastNext(hs, m - 1, n);
      base[m - 1] := base[m - 1] + base[m];
      m := m - 1;
    }
  }

  lemma SmallBuckets(counts: seq<nat>)
    requires forall i :: 0 <= i < |counts| ==> counts[i] <= MAX_COUNT
    ensures forall i :: 0 <= i < |counts| ==> Buckets(counts)[i] < MAX_BIT_LENGTH
  {
    forall i | 0 <= i < |counts| ensures Buckets(counts)[i] < MAX_BIT_LENGTH { HighBitSmall(counts[i]); }
  }

  lemma NoLevel(hs: seq<nat>)
    ensures forall h: nat :: HuffCodes.Level(hs, h, 0) == 0
  {
  }

  lemma LevelNext(hs: seq<nat>, k: nat)
    requires k < |hs|
    ensures forall h: nat :: HuffCodes.Level(hs, h, k + 1) == HuffCodes.Level(hs, h, k) + if hs[k] == h then 1 else 0
  {
  }

  /** The higher count comes first, and of equal ones the lower symbol. */
  predicate InOrder(x: NodeElt, y: NodeElt) { x.count > y.count || (x.count == y.count && x.symbol < y.symbol) }

  /** Nodes a to b - 1, kept one further, in order. */
  ghost predicate Falling(ns: seq<NodeElt>, a: nat, b: nat)
    requires b < |ns|
  {
    forall p, q :: a < p < q <= b ==> InOrder(ns[p], ns[q])
  }

  /** Where node p is kept, node -1 being the last. */
  function Slot(p: int): (k: nat)
    requires -1 <= p
    ensures k <= NODES_LEN && (0 <= p < NODES_LEN ==> k == p + 1)
  {
    p % NODES_LEN + 1
  }

  /** Node pos is new, and those up to b have moved up by one. */
  ghost predicate Inserted(ns: seq<NodeElt>, ns': seq<NodeElt>, b: nat, pos: nat, e: NodeElt)
  {
    && pos <= b && b + 1 < |ns| == |ns'| && ns'[pos + 1] == e
    && (forall p :: 0 <= p <= pos || b + 1 < p < |ns| ==> ns'[p] == ns[p])
    && (forall p :: pos + 1 < p <= b + 1 ==> ns'[p] == ns[p - 1])
  }

  lemma InsertedFalls(ns: seq<NodeElt>, ns': seq<NodeElt>, a: nat, b: nat, pos: nat, e: NodeElt)
    requires Inserted(ns, ns', b, pos, e) && a <= pos && Falling(ns, a, b)
    requires (forall p :: pos < p <= b ==> ns[p].count < e.count) && (pos == a || ns[pos].count >= e.count)
    requires forall p :: a < p <= b ==> ns[p].symbol < e.symbol
    ensures Falling(ns', a, b + 1)
  {
    forall p, q | a < p < q <= b + 1 ensures InOrder(ns'[p], ns'[q]) {
      var p' := if p <= pos then p else p - 1;
      var q' := if q <= pos then q else q - 1;
      assert p == pos + 1 || ns'[p] == ns[p'];
      assert q == pos + 1 || ns'[q] == ns[q'];
      assert a < p < pos ==> InOrder(ns[p], ns[pos]);
      if a < p' < q' { assert InOrder(ns[p'], ns[q']); }
    }
  }

  /** Puts a node where its count belongs, moving the smaller ones up. */
  method Insert(node: array<NodeElt>, a: nat, b: nat, c: nat, sym: nat) returns (pos: nat)
    requires a <= b && b + 1 < NODES_LEN < node.Length && Falling(node[..], a, b)
    requires forall p :: a < p <= b ==> node[p].symbol < sym
    modifies node
    ensures a <= pos && Inserted(old(node[..]), node[..], b, pos, NodeElt(c, 0, sym, 0)) && Falling(node[..], a, b + 1)
  {
    hide Falling, Slot;
    ghost var ns := node[..];
    pos := b;
    var prev := node[Slot(pos - 1)];
    while pos > a && c > prev.count
      invariant a <= pos <= b && (pos > 0 ==> prev == ns[pos])
      invariant forall p :: 0 <= p <= pos || b + 1 < p < node.Length ==> node[p] == ns[p]
      invariant forall p :: pos + 1 < p <= b + 1 ==> node[p] == ns[p - 1]
      invariant forall p :: pos < p <= b ==> ns[p].count < c
    {
      node[Slot(pos)] := prev;
      pos := pos - 1;
      prev := node[Slot(pos - 1)];
    }
    node[Slot(pos)] := NodeElt(c, 0, sym, 0);
    InsertedFalls(ns, node[..], a, b, pos, NodeElt(c, 0, sym, 0));
  }

  // ----- the buckets while they fill -----

  /** Where buckets begin, and where those filled with the first k counts end. */
  ghost predicate Ends(base: seq<nat>, cur: seq<nat>, hs: seq<nat>, k: nat)
  {
    && |base| == |cur| == 32 && k <= |hs| && (forall i :: 0 <= i < |hs| ==> hs[i] < MAX_BIT_LENGTH)
    && (forall h :: 0 <= h <= MAX_BIT_LENGTH ==> base[h] == AtLeast(hs, h, |hs|))
    && (forall h :: 1 <= h <= MAX_BIT_LENGTH ==> cur[h] == base[h] + HuffCodes.Level(hs, h - 1, k))
  }

  /** The nodes of a bucket: symbols of the right length, each where `at` says, with falling counts. */
  ghost predicate Bucket(ns: seq<NodeElt>, hs: seq<nat>, at: seq<nat>, h: nat, a: nat, b: nat)
  {
    && |at| <= |hs| && b < |ns| && Falling(ns, a, b)
    && forall k :: a < k <= b ==> var s := ns[k].symbol; s < |at| && at[s] + 1 == k && hs[s] + 1 == h
  }

  /** Symbol i is in its bucket with its count. */
  ghost predicate Spot(ns: seq<NodeElt>, counts: seq<nat>, a: nat, b: nat, at: seq<nat>, i: nat)
  {
    && i < |at| && i < |counts| && a <= at[i] < b < |ns|
    && ns[at[i] + 1].symbol == i && ns[at[i] + 1].count == counts[i]
  }

  ghost predicate Filling(ns: seq<NodeElt>, counts: seq<nat>, hs: seq<nat>, base: seq<nat>, cur: seq<nat>, at: seq<nat>)
  {
    && |base| == |cur| == 32 && |at| <= |counts| == |hs| && (forall i :: 0 <= i < |hs| ==> hs[i] < MAX_BIT_LENGTH)
    && (forall h :: 1 <= h <= MAX_BIT_LENGTH ==> Bucket(ns, hs, at, h, base[h], cur[h]))
    && (forall i :: 0 <= i < |at| ==> Spot(ns, counts, base[hs[i] + 1], cur[hs[i] + 1], at, i))
  }

  /** Buckets do not reach into each other, and there is room for one more count in its own. */
  lemma Apart(base: seq<nat>, cur: seq<nat>, hs: seq<nat>, k: nat, g: nat, h: nat)
    requires Ends(base, cur, hs, k) && 1 <= g < h <= MAX_BIT_LENGTH
    ensures base[h] <= cur[h] <= base[g] <= cur[g] <= |hs|
  {
    hide AtLeast, HuffCodes.Level;
    AtLeastNext(hs, h - 1, |hs|);
    HuffCodes.LevelMono(hs, h - 1, k, |hs|);
    AtLeastFalls(hs, g, h - 1, |hs|);
    AtLeastNext(hs, g - 1, |hs|);
    HuffCodes.LevelMono(hs, g - 1, k, |hs|);
  }

  lemma Room(base: seq<nat>, cur: seq<nat>, hs: seq<nat>, k: nat)
    requires Ends(base, cur, hs, k) && k < |hs|
    ensures base[hs[k] + 1] <= cur[hs[k] + 1] < base[hs[k]] <= |hs|
    ensures Ends(base, cur[hs[k] + 1 := cur[hs[k] + 1] + 1], hs, k + 1)
    ensures forall g :: 1 <= g < hs[k] + 1 ==> base[g] > cur[hs[k] + 1]
  {
    hide AtLeast, HuffCodes.Level;
    var h := hs[k];
    AtLeastNext(hs, h, |hs|);
    HuffCodes.LevelMono(hs, h, k, |hs|);
    LevelNext(hs, k);
    forall g | 1 <= g < h + 1 ensures base[g] > cur[h + 1] { AtLeastFalls(hs, g, h, |hs|); }
  }

  /** The places after an insertion at pos, into the bucket that ends at b. */
  function Moved(at: seq<nat>, b: nat, pos: nat): (at': seq<nat>)
    ensures |at'| == |at| + 1 && at'[|at|] == pos && forall i :: 0 <= i < |at| ==> at'[i] == if pos <= at[i] < b then at[i] + 1 else at[i]
  {
    seq(|at|, i requires 0 <= i < |at| => if pos <= at[i] < b then at[i] + 1 else at[i]) + [pos]
  }

  lemma OwnBucket(ns: seq<NodeElt>, ns': seq<NodeElt>, hs: seq<nat>, at: seq<nat>, a: nat, b: nat, pos: nat, e: NodeElt)
    requires |at| < |hs| && Bucket(ns, hs, at, hs[|at|] + 1, a, b) && Inserted(ns, ns', b, pos, e) && a <= pos && e.symbol == |at|
    requires Falling(ns', a, b + 1)
    ensures Bucket(ns', hs, Moved(at, b, pos), hs[|at|] + 1, a, b + 1)
  {
    hide Falling;
    var at' := Moved(at, b, pos);
    forall k | a < k <= b + 1 ensures var s := ns'[k].symbol; s < |at'| && at'[s] + 1 == k && hs[s] == hs[|at|] {
      if k > pos + 1 { assert ns'[k] == ns[k - 1]; }
    }
  }

  lemma OtherBucket(ns: seq<NodeElt>, ns': seq<NodeElt>, hs: seq<nat>, at: seq<nat>, h: nat, a: nat, b: nat, a': nat, b': nat, pos: nat, e: NodeElt)
    requires |at| < |hs| && Bucket(ns, hs, at, h, a', b') && Inserted(ns, ns', b, pos, e) && a <= pos && e.symbol == |at|
    requires b' <= a || a' > b
    ensures Bucket(ns', hs, Moved(at, b, pos), h, a', b')
  {
    forall k | a' < k <= b' ensures ns'[k] == ns[k] { }
  }

  lemma OldSpot(ns: seq<NodeElt>, ns': seq<NodeElt>, counts: seq<nat>, at: seq<nat>, a: nat, b: nat, pos: nat, e: NodeElt, a': nat, b': nat, i: nat)
    requires Spot(ns, counts, a', b', at, i) && Inserted(ns, ns', b, pos, e)
    requires (a' == a <= pos && b' == b) || b' <= a <= pos || a' > b
    ensures Spot(ns', counts, a', if a' == a && b' == b then b + 1 else b', Moved(at, b, pos), i)
  {
    if pos <= at[i] < b { assert ns'[at[i] + 2] == ns[at[i] + 1]; }
  }

  lemma Filled(ns: seq<NodeElt>, ns': seq<NodeElt>, counts: seq<nat>, hs: seq<nat>, base: seq<nat>, cur: seq<nat>, at: seq<nat>, h: nat, pos: nat, e: NodeElt)
    requires Filling(ns, counts, hs, base, cur, at) && |at| < |hs| && h == hs[|at|] + 1 && Ends(base, cur, hs, |at|)
    requires Inserted(ns, ns', cur[h], pos, e) && base[h] <= pos && Falling(ns', base[h], cur[h] + 1)
    requires e.symbol == |at| && e.count == counts[|at|]
    ensures Filling(ns', counts, hs, base, cur[h := cur[h] + 1], Moved(at, cur[h], pos))
  {
    hide AtLeast, HuffCodes.Level, Bucket, Spot, Falling;
    var a, b := base[h], cur[h];
    var at', cur' := Moved(at, b, pos), cur[h := b + 1];
    forall g | 1 <= g <= MAX_BIT_LENGTH ensures Bucket(ns', hs, at', g, base[g], cur'[g]) {
      if g == h {
        OwnBucket(ns, ns', hs, at, a, b, pos, e);
      } else {
        ApartFrom(base, cur, hs, |at|, g);
        OtherBucket(ns, ns', hs, at, g, a, b, base[g], cur[g], pos, e);
      }
    }
    forall i | 0 <= i < |at'| ensures Spot(ns', counts, base[hs[i] + 1], cur'[hs[i] + 1], at', i) {
      var g := hs[i] + 1;
      if i == |at| {
        NewSpot(ns, ns', counts, at, a, b, pos, e);
      } else {
        if g != h { ApartFrom(base, cur, hs, |at|, g); }
        OldSpot(ns, ns', counts, at, a, b, pos, e, base[g], cur[g], i);
      }
    }
  }

  lemma NewSpot(ns: seq<NodeElt>, ns': seq<NodeElt>, counts: seq<nat>, at: seq<nat>, a: nat, b: nat, pos: nat, e: NodeElt)
    requires |at| < |counts| && Inserted(ns, ns', b, pos, e) && a <= pos && e.symbol == |at| && e.count == counts[|at|]
    ensures Spot(ns', counts, a, b + 1, Moved(at, b, pos), |at|)
  {
  }

  lemma ApartFrom(base: seq<nat>, cur: seq<nat>, hs: seq<nat>, k: nat, g: nat)
    requires Ends(base, cur, hs, k) && k < |hs| && 1 <= g <= MAX_BIT_LENGTH && g != hs[k] + 1
    ensures hs[k] < MAX_BIT_LENGTH && (cur[g] <= base[hs[k] + 1] || base[g] > cur[hs[k] + 1])
  {
    if g > hs[k] + 1 { Apart(base, cur, hs, k, hs[k] + 1, g); } else { Room(base, cur, hs, k); }
  }

  // ----- sorted -----

  /** `at` says where every symbol is, with its count; counts fall, and equal ones keep the order of their symbols. */
  ghost predicate Sorted(ns: seq<NodeElt>, counts: seq<nat>, at: seq<nat>)
  {
    && |at| == |counts| < |ns| && Falling(ns, 0, |counts|)
    && (forall i :: 0 <= i < |at| ==> at[i] < |at| && ns[at[i] + 1].symbol == i)
    && (forall k :: 1 <= k <= |at| ==> ns[k].symbol < |at| && at[ns[k].symbol] + 1 == k && ns[k].count == counts[ns[k].symbol])
  }

  method Sort(node: array<NodeElt>, counts: seq<nat>) returns (ghost at: seq<nat>)
    requires |counts| <= 256 && node.Length == NODES_LEN + 1 && forall i :: 0 <= i < |counts| ==> counts[i] <= MAX_COUNT
    modifies node
    ensures Sorted(node[..], counts, at)
  {
    hide AtLeast, HuffCodes.Level, Filling, Sorted, HighBit;
    ghost var hs := Buckets(counts);
    SmallBuckets(counts);
    NoLevel(hs);
    var base := Bases(counts);
    var current := new nat[32](i requires 0 <= i < base.Length reads base => if i < MAX_BIT_LENGTH then base[i] else 0);
    AtLeastNone(hs, MAX_BIT_LENGTH, |hs|);
    at := [];
    NothingFilled(node[..], counts, hs, base[..], current[..]);
    for n := 0 to |counts|
      invariant |at| == n && Ends(base[..], current[..], hs, n) && Filling(node[..], counts, hs, base[..], current[..], at)
    {
      var c := counts[n];
      var r := HighBit(c + 1) + 1;
      ghost var ns, cur := node[..], current[..];
      OwnFalls(ns, counts, hs, base[..], cur, at);
      Room(base[..], cur, hs, n);
      var pos := Insert(node, base[r], current[r], c, n);
      Filled(ns, node[..], counts, hs, base[..], cur, at, r, pos, NodeElt(c, 0, n, 0));
      at := Moved(at, current[r], pos);
      current[r] := current[r] + 1;
      assert current[..] == cur[r := cur[r] + 1];
    }
    AllFilled(node[..], counts, hs, base[..], current[..], at);
  }

  lemma NothingFilled(ns: seq<NodeElt>, counts: seq<nat>, hs: seq<nat>, base: seq<nat>, cur: seq<nat>)
    requires Ends(base, cur, hs, 0) && hs == Buckets(counts) && |counts| < |ns|
    ensures Filling(ns, counts, hs, base, cur, [])
  {
    hide AtLeast, HuffCodes.Level;
    forall h | 1 <= h <= MAX_BIT_LENGTH ensures Bucket(ns, hs, [], h, base[h], cur[h]) {
      NoLevel(hs);
    }
  }

  lemma OwnFalls(ns: seq<NodeElt>, counts: seq<nat>, hs: seq<nat>, base: seq<nat>, cur: seq<nat>, at: seq<nat>)
    requires Filling(ns, counts, hs, base, cur, at) && |at| < |hs|
    ensures hs[|at|] < MAX_BIT_LENGTH && cur[hs[|at|] + 1] < |ns| && Falling(ns, base[hs[|at|] + 1], cur[hs[|at|] + 1])
    ensures forall p :: base[hs[|at|] + 1] < p <= cur[hs[|at|] + 1] ==> ns[p].symbol < |at|
  {
  }

  /** The bucket a node is in. */
  lemma {:induction false} InWhich(base: seq<nat>, hs: seq<nat>, k: nat, top: nat) returns (h: nat)
    requires Ends(base, base, hs, 0) && 1 <= top <= MAX_BIT_LENGTH && base[top] < k <= base[0]
    ensures 1 <= h <= top && base[h] < k <= base[h - 1]
    decreases top
  {
    if k <= base[top - 1] { h := top; } else { h := InWhich(base, hs, k, top - 1); }
  }

  lemma FullBuckets(base: seq<nat>, cur: seq<nat>, hs: seq<nat>)
    requires Ends(base, cur, hs, |hs|)
    ensures Ends(base, base, hs, 0) && base[0] == |hs| && base[MAX_BIT_LENGTH] == 0
    ensures forall h :: 1 <= h <= MAX_BIT_LENGTH ==> cur[h] == base[h - 1]
  {
    hide AtLeast, HuffCodes.Level;
    NoLevel(hs);
    AtLeastAll(hs, |hs|);
    AtLeastNone(hs, MAX_BIT_LENGTH, |hs|);
    forall h | 1 <= h <= MAX_BIT_LENGTH ensures cur[h] == base[h - 1] { AtLeastNext(hs, h - 1, |hs|); }
  }

  lemma NodeFilled(ns: seq<NodeElt>, counts: seq<nat>, hs: seq<nat>, base: seq<nat>, cur: seq<nat>, at: seq<nat>, k: nat) returns (h: nat)
    requires Filling(ns, counts, hs, base, cur, at) && |at| == |hs| && Ends(base, cur, hs, |hs|) && 1 <= k <= |hs|
    ensures 1 <= h <= MAX_BIT_LENGTH && base[h] < k <= cur[h] < |ns| && Falling(ns, base[h], cur[h])
    ensures ns[k].symbol < |at| && at[ns[k].symbol] + 1 == k && hs[ns[k].symbol] + 1 == h && ns[k].count == counts[ns[k].symbol]
  {
    hide AtLeast, HuffCodes.Level, Falling;
    FullBuckets(base, cur, hs);
    h := InWhich(base, hs, k, MAX_BIT_LENGTH);
    assert Bucket(ns, hs, at, h, base[h], cur[h]);
    var s := ns[k].symbol;
    assert Spot(ns, counts, base[hs[s] + 1], cur[hs[s] + 1], at, s);
  }

  lemma AllFilled(ns: seq<NodeElt>, counts: seq<nat>, hs: seq<nat>, base: seq<nat>, cur: seq<nat>, at: seq<nat>)
    requires Filling(ns, counts, hs, base, cur, at) && hs == Buckets(counts) && |at| == |hs| && Ends(base, cur, hs, |hs|) && |counts| < |ns|
    ensures Sorted(ns, counts, at)
  {
    hide Filling, Ends, HighBit;
    forall k | 1 <= k <= |at|
      ensures ns[k].symbol < |at| && at[ns[k].symbol] + 1 == k && ns[k].count == counts[ns[k].symbol]
    {
      var h := NodeFilled(ns, counts, hs, base, cur, at, k);
    }
    forall i | 0 <= i < |at| ensures at[i] < |at| && ns[at[i] + 1].symbol == i {
      SpotBelow(ns, counts, hs, base, cur, at, i);
    }
    forall p, q | 0 < p < q <= |counts| ensures InOrder(ns[p], ns[q]) {
      TwoFall(ns, counts, hs, base, cur, at, p, q);
    }
  }

  lemma TwoFall(ns: seq<NodeElt>, counts: seq<nat>, hs: seq<nat>, base: seq<nat>, cur: seq<nat>, at: seq<nat>, p: nat, q: nat)
    requires Filling(ns, counts, hs, base, cur, at) && hs == Buckets(counts) && |at| == |hs| && Ends(base, cur, hs, |hs|)
    requires 0 < p < q <= |counts| < |ns|
    ensures InOrder(ns[p], ns[q])
  {
    hide Filling, Ends, HighBit;
    var g := NodeFilled(ns, counts, hs, base, cur, at, p);
    var h := NodeFilled(ns, counts, hs, base, cur, at, q);
    var a, b := ns[p].symbol, ns[q].symbol;
    if g < h {
      Apart(base, cur, hs, |hs|, g, h);
    } else if g > h && counts[a] <= counts[b] {
      HighBitMono(counts[a] + 1, counts[b] + 1);
    }
  }

  lemma SpotBelow(ns: seq<NodeElt>, counts: seq<nat>, hs: seq<nat>, base: seq<nat>, cur: seq<nat>, at: seq<nat>, i: nat)
    requires Filling(ns, counts, hs, base, cur, at) && |at| == |hs| && Ends(base, cur, hs, |hs|) && i < |at|
    ensures at[i] < |at| < |ns| ==> ns[at[i] + 1].symbol == i
    ensures at[i] < |at|
  {
    hide AtLeast, HuffCodes.Level;
    assert Spot(ns, counts, base[hs[i] + 1], cur[hs[i] + 1], at, i);
    FullBuckets(base, cur, hs);
    AtLeastFalls(hs, 0, hs[i], |hs|);
  }
}
