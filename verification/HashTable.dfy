/** The rolling hash: a word's value depends on nothing but the word. */
module RollingHash {
  import opened Bits

  /** A 64-bit hash value. */
  datatype Word = Word(v: bv64)

  const ZERO: Word := Word(0)

  function Xor(a: Word, b: Word): Word { Word(a.v ^ b.v) }

  function Ror1(x: Word): Word { Word((x.v >> 1) | (x.v << 63)) }

  /** `x` rotated right by `s` bits, for the shifts a word of at most four bytes needs. */
  function Ror(x: Word, s: nat): Word
    requires s < 4
  {
    if s == 0 then x
    else if s == 1 then Word((x.v >> 1) | (x.v << 63))
    else if s == 2 then Word((x.v >> 2) | (x.v << 62))
    else Word((x.v >> 3) | (x.v << 61))
  }

  lemma RorStep(x: Word, s: nat)
    requires s < 3
    ensures Ror(x, s + 1) == Ror1(Ror(x, s))
  {
    hide Ror, Ror1;
    match s {
      case 0 => RorOne(x);
      case 1 => RorTwo(x);
      case 2 => RorThree(x);
    }
  }

  lemma RorOne(x: Word)
    ensures Ror(x, 1) == Ror1(Ror(x, 0))
  {
  }

  lemma RorTwo(x: Word)
    ensures Ror(x, 2) == Ror1(Ror(x, 1))
  {
  }

  lemma RorThree(x: Word)
    ensures Ror(x, 3) == Ror1(Ror(x, 2))
  {
  }

  /** The hash of a list of table values, oldest first. */
  function Fold(ys: seq<Word>): Word
  {
    if ys == [] then ZERO else Xor(Ror1(Fold(ys[..|ys| - 1])), ys[|ys| - 1])
  }

  lemma FoldSnoc(ys: seq<Word>, y: Word)
    ensures Fold(ys + [y]) == Xor(Ror1(Fold(ys)), y)
  {
    hide Ror1, Xor;
    assert (ys + [y])[..|ys|] == ys;
  }

  /** The lowest bit goes to the top, and the others one down. */
  lemma RotatesRight()
    ensures Ror1(Word(1)) == Word(0x8000_0000_0000_0000) && Ror1(Word(0x8000_0000_0000_0002)) == Word(0x4000_0000_0000_0001)
  {
  }

  /** The hash of four values, the oldest rotated farthest. */
  lemma FoldFour(a: Word, b: Word, c: Word, d: Word)
    ensures Fold([a, b, c, d]) == Xor(Ror(a, 3), Xor(Ror(b, 2), Xor(Ror(c, 1), Xor(d, ZERO))))
  {
    hide Ror, Ror1, Xor;
    assert [a, b, c, d] == [a] + [b, c, d] && [b, c, d] == [b] + [c, d] && [c, d] == [c] + [d] && [d] == [d] + [];
    FoldOldest(a, [b, c, d]);
    FoldOldest(b, [c, d]);
    FoldOldest(c, [d]);
    FoldOldest(d, []);
    RorNone(d);
  }

  lemma RorNone(x: Word)
    ensures Ror(x, 0) == x
  {
  }

  lemma XorShift(a: Word, b: Word, y: Word)
    ensures Xor(Ror1(Xor(a, b)), y) == Xor(Ror1(a), Xor(Ror1(b), y))
  {
  }

  /** The oldest value contributes its rotation, and nothing else. */
  lemma {:induction false} FoldOldest(y0: Word, ys: seq<Word>)
    requires |ys| < 4
    ensures Fold([y0] + ys) == Xor(Ror(y0, |ys|), Fold(ys))
    decreases |ys|
  {
    hide Ror, Ror1, Xor;
    if |ys| == 0 {
      assert [y0] + ys == [] + [y0];
      FoldSnoc([], y0);
      OneValue(y0);
    } else {
      var front, y := ys[..|ys| - 1], ys[|ys| - 1];
      FoldOldest(y0, front);
      assert front + [y] == ys && [y0] + ys == ([y0] + front) + [y];
      FoldSnoc([y0] + front, y);
      FoldSnoc(front, y);
      RorStep(y0, |front|);
      XorShift(Ror(y0, |front|), Fold(front), y);
    }
  }

  lemma OneValue(y: Word)
    ensures Xor(Ror1(ZERO), y) == Xor(Ror(y, 0), ZERO)
  {
  }

  /** Taking the oldest value out and a new one in. */
  lemma FoldShift(y0: Word, ys: seq<Word>, y: Word)
    requires |ys| < 4
    ensures Fold(ys + [y]) == Xor(Ror1(Xor(Fold([y0] + ys), Ror(y0, |ys|))), y)
  {
    hide Ror, Ror1, Xor;
    FoldOldest(y0, ys);
    FoldSnoc(ys, y);
    XorCancel(Ror(y0, |ys|), Fold(ys));
  }

  lemma XorCancel(a: Word, b: Word)
    ensures Xor(Xor(a, b), a) == b
  {
  }

  /** `h & mask` for a table whose length is a power of two. */
  function Reduce(h: Word, len: nat): (s: nat)
    requires len >= 1
    ensures s < len
  {
    h.v as nat % len
  }

  function Values(table: seq<Word>, word: seq<Byte>): (ys: seq<Word>)
    requires |table| == 256
    ensures |ys| == |word|
  {
    seq(|word|, i requires 0 <= i < |word| => table[word[i]])
  }

  function WordHash(table: seq<Word>, word: seq<Byte>): Word
    requires |table| == 256
  {
    Fold(Values(table, word))
  }

  /** The last n bytes, or all of them while there are fewer. */
  function LastBytes(input: seq<Byte>, n: nat): seq<Byte>
  {
    if |input| <= n then input else input[|input| - n..]
  }

  class CyclicPoly {
    const n: nat
    const table: seq<Word>
    var h: Word
    var p: seq<Word>
    var i: nat
    /** Every byte rolled in. */
    ghost var input: seq<Byte>

    ghost predicate Valid()
      reads this
    {
      && 1 <= n <= 4 && |table| == 256
      && i < n
      && |p| == (if |input| < n then |input| else n)
      && (|p| < n ==> i == 0)
      && p[i..] + p[..i] == Values(table, LastBytes(input, n))
      && h == WordHash(table, LastBytes(input, n))
    }

    constructor (length: nat, table_: seq<Word>)
      requires 1 <= length <= 4 && |table_| == 256
      ensures Valid() && n == length && table == table_ && input == []
    {
      n, table := length, table_;
      h, p, i, input := ZERO, [], 0, [];
    }

    /** Whatever was rolled in before, the hash is that of the last n bytes. */
    method RollByte(x: Byte) returns (r: Word)
      requires Valid()
      modifies this
      ensures Valid() && input == old(input) + [x]
      ensures r == WordHash(table, LastBytes(input, n))
    {
      hide Ror, Ror1, Xor, Fold, Values, LastBytes;
      var y := table[x];
      ghost var before := Values(table, LastBytes(input, n));
      LastBytesNext(input, x, n, table);
      if |p| < n {
        FoldSnoc(before, y);
        RingFull(p);
        RingFull(p + [y]);
        h := Xor(Ror1(h), y);
        p := p + [y];
      } else {
        FoldShift(before[0], before[1..], y);
        RingReplace(p, i, y);
        assert before == [before[0]] + before[1..];
        h := Xor(h, Ror(p[i], n - 1));
        h := Xor(Ror1(h), y);
        p := p[i := y];
        i := if i + 1 == n then 0 else i + 1;
      }
      input := input + [x];
      return h;
    }
  }

  lemma LastBytesNext(input: seq<Byte>, x: Byte, n: nat, table: seq<Word>)
    requires n >= 1 && |table| == 256
    ensures var before, after := Values(table, LastBytes(input, n)), Values(table, LastBytes(input + [x], n));
            after == if |input| < n then before + [table[x]] else before[1..] + [table[x]]
  {
    if |input| < n {
      assert LastBytes(input + [x], n) == input + [x];
    } else {
      assert LastBytes(input + [x], n) == LastBytes(input, n)[1..] + [x];
    }
  }

  lemma RingFull(p: seq<Word>)
    ensures p[0..] + p[..0] == p
  {
  }

  /** Replacing the oldest entry of a ring and moving on drops it in front and adds the new one behind. */
  lemma RingReplace(p: seq<Word>, i: nat, y: Word)
    requires i < |p|
    ensures var j := if i + 1 == |p| then 0 else i + 1;
            var q := p[i := y];
            (p[i..] + p[..i])[0] == p[i] && q[j..] + q[..j] == (p[i..] + p[..i])[1..] + [y]
  {
  }
}

/** The hash chain behind the match finder. */
module HashTables {
  import opened Bits
  import opened CodecSpec
  import opened RollingHash
  import OpSpec
  import LzmaBuffer

  const MAX_MATCHES: int := 16
  const SHORT_DISTS: int := 8

  /** The newest position below `hi` in slot `s`, or -1. */
  function LastPos(slots: seq<nat>, hi: nat, s: nat): (p: int)
    requires hi <= |slots|
    ensures -1 <= p < hi
    ensures p >= 0 ==> slots[p] == s
    ensures forall q :: p < q < hi ==> slots[q] != s
  {
    if hi == 0 then -1 else if slots[hi - 1] == s then hi - 1 else LastPos(slots, hi - 1, s)
  }

  /** The positions of slot `s` in [lo, hi), newest first, at most `max` of them. */
  function Newest(slots: seq<nat>, s: nat, hi: nat, lo: nat, max: nat): (ps: seq<nat>)
    requires hi <= |slots|
    ensures |ps| <= max && forall k :: 0 <= k < |ps| ==> ps[k] < hi
    decreases hi
  {
    if max == 0 || hi <= lo then []
    else if slots[hi - 1] == s then [hi - 1] + Newest(slots, s, hi - 1, lo, max - 1)
    else Newest(slots, s, hi - 1, lo, max)
  }

  predicate Falling(ps: seq<nat>)
  {
    |ps| <= 1 || (ps[1] < ps[0] && Falling(ps[1..]))
  }

  lemma FallingAt(ps: seq<nat>, k: nat)
    requires Falling(ps) && k + 1 < |ps|
    ensures ps[k + 1] < ps[k]
  {
    if k > 0 { FallingAt(ps[1..], k - 1); }
  }

  /** Newest finds positions of the slot only, in strictly falling order. */
  lemma {:induction false} NewestSound(slots: seq<nat>, s: nat, hi: nat, lo: nat, max: nat)
    requires hi <= |slots|
    ensures var ps := Newest(slots, s, hi, lo, max);
            Falling(ps) && forall p :: p in ps ==> lo <= p < hi && slots[p] == s
    decreases hi
  {
    if max > 0 && hi > lo {
      if slots[hi - 1] == s {
        NewestSound(slots, s, hi - 1, lo, max - 1);
        var tail := Newest(slots, s, hi - 1, lo, max - 1);
        assert ([hi - 1] + tail)[1..] == tail;
        assert tail != [] ==> tail[0] in tail;
      } else {
        NewestSound(slots, s, hi - 1, lo, max);
      }
    }
  }

  /** Taking the newest position of the slot leaves the ones below it to be found. */
  /** The positions found, and the newest of those that are left. */
  function Found(found: seq<nat>, slots: seq<nat>, s: nat, hi: nat, lo: nat, max: nat): seq<nat>
    requires hi <= |slots| && |found| <= max
  {
    found + Newest(slots, s, hi, lo, max - |found|)
  }

  lemma NewestTake(slots: seq<nat>, s: nat, hi: nat, lo: nat, max: nat, found: seq<nat>)
    requires hi <= |slots| && |found| < max
    ensures var p := LastPos(slots, hi, s);
            if p < lo then Found(found, slots, s, hi, lo, max) == found
            else Found(found, slots, s, hi, lo, max) == Found(found + [p], slots, s, p, lo, max) &&
                 (|found| + 1 == max ==> Found(found + [p], slots, s, p, lo, max) == found + [p])
  {
    NewestLink(slots, s, hi, lo, max - |found|);
  }

  lemma FoundAll(slots: seq<nat>, s: nat, lo: nat, max: nat)
    ensures Found([], slots, s, |slots|, lo, max) == Newest(slots, s, |slots|, lo, max)
  {
  }

  lemma NewestNone(slots: seq<nat>, s: nat, hi: nat, lo: nat, max: nat)
    requires hi <= |slots| && (max == 0 || hi <= lo)
    ensures Newest(slots, s, hi, lo, max) == []
  {
  }

  /** Newest misses no position of the slot: none at all before it is full, none above the last one it lists. */
  lemma {:induction false} NewestComplete(slots: seq<nat>, s: nat, hi: nat, lo: nat, max: nat, q: nat)
    requires lo <= q < hi <= |slots| && slots[q] == s
    ensures var ps := Newest(slots, s, hi, lo, max);
            |ps| < max || (|ps| > 0 && q >= ps[|ps| - 1]) ==> q in ps
    decreases hi
  {
    var ps := Newest(slots, s, hi, lo, max);
    if max > 0 {
      if q == hi - 1 {
        assert ps[0] == q;
      } else if slots[hi - 1] == s {
        var tail := Newest(slots, s, hi - 1, lo, max - 1);
        NewestComplete(slots, s, hi - 1, lo, max - 1, q);
        assert ps == [hi - 1] + tail;
        assert q in tail ==> q in ps;
      } else {
        NewestComplete(slots, s, hi - 1, lo, max, q);
      }
    }
  }

  /** One link of the chain: the newest position, then the ones below it. */
  lemma {:induction false} NewestLink(slots: seq<nat>, s: nat, hi: nat, lo: nat, max: nat)
    requires hi <= |slots| && max > 0
    ensures var p := LastPos(slots, hi, s);
            Newest(slots, s, hi, lo, max) == if p < lo then [] else [p] + Newest(slots, s, p, lo, max - 1)
    decreases hi
  {
    if hi > lo {
      if slots[hi - 1] != s { NewestLink(slots, s, hi - 1, lo, max); }
    }
  }

  /** What the chain stores for a position: the distance to the previous one of its slot, 0 when that is gone. */
  function Delta(slots: seq<nat>, pos: nat, len: nat): nat
    requires pos < |slots|
  {
    var prev := LastPos(slots, pos, slots[pos]);
    if prev < 0 || pos - prev > len then 0 else pos - prev
  }

  lemma DeltaLinks(slots: seq<nat>, pos: nat, len: nat)
    requires pos < |slots|
    ensures var u, prev := Delta(slots, pos, len), LastPos(slots, pos, slots[pos]);
            if u == 0 then prev < 0 || pos - prev > len else prev == pos - u
  {
  }

  lemma {:induction false} LastPosPrefix(slots: seq<nat>, x: nat, hi: nat, s: nat)
    requires hi <= |slots|
    ensures LastPos(slots + [x], hi, s) == LastPos(slots, hi, s)
    decreases hi
  {
    if hi > 0 && slots[hi - 1] != s { LastPosPrefix(slots, x, hi - 1, s); }
  }

  lemma LastWord(before: seq<Byte>, p: seq<Byte>)
    ensures LastBytes(before + p, |p|) == p
  {
    assert (before + p)[|before|..] == p;
  }

  lemma WordAt(input: seq<Byte>, n: nat)
    ensures |input| >= n ==> LastBytes(input, n) == input[|input| - n..|input| - n + n]
  {
  }

  /** A new position heads its own slot, and disturbs no other slot, no stored distance and no other ring index. */
  lemma ChainGrows(slots: seq<nat>, x: nat, len: nat)
    requires len >= 1
    ensures forall s :: LastPos(slots + [x], |slots| + 1, s) == if s == x then |slots| else LastPos(slots, |slots|, s)
    ensures forall q :: 0 <= q < |slots| ==> Delta(slots + [x], q, len) == Delta(slots, q, len)
    ensures var prev := LastPos(slots, |slots|, x);
            Delta(slots + [x], |slots|, len) == if prev < 0 || |slots| - prev > len then 0 else |slots| - prev
    ensures forall q :: 0 <= q < |slots| && q > |slots| - len ==> RingPos(q, len) != RingPos(|slots|, len)
  {
    forall s
      ensures LastPos(slots + [x], |slots| + 1, s) == if s == x then |slots| else LastPos(slots, |slots|, s)
    {
      LastPosPrefix(slots, x, |slots|, s);
    }
    forall q | 0 <= q < |slots|
      ensures Delta(slots + [x], q, len) == Delta(slots, q, len)
    {
      LastPosPrefix(slots, x, q, slots[q]);
    }
    LastPosPrefix(slots, x, |slots|, x);
    forall q | 0 <= q < |slots| && q > |slots| - len
      ensures RingPos(q, len) != RingPos(|slots|, len)
    {
      RingOffset(q, |slots| - q, len);
    }
  }

  /** `n` modulo `len`. */
  function RingPos(n: nat, len: nat): (r: nat)
    requires len >= 1
    ensures r < len
  {
    if n < len then n else RingPos(n - len, len)
  }

  class HashTable {
    const t: array<int>
    const data: array<nat>
    const wordLen: nat
    const wr: CyclicPoly
    const hr: CyclicPoly
    var front: nat
    var hoff: int
    /** The bytes written, and the slot of every word among them. */
    ghost var input: seq<Byte>
    ghost var slots: seq<nat>

    ghost predicate Valid()
      reads this, t, data, wr, hr
    {
      && t.Length >= 1 && 1 <= data.Length <= EOS_DIST
      && wr.Valid() && hr.Valid() && wr != hr
      && wr.n == hr.n == wordLen && wr.table == hr.table
      && wr.input == input
      && hoff == |input| - wordLen
      && |slots| == Buffered0()
      && (forall pos :: 0 <= pos < |slots| ==> slots[pos] == SlotOfWord(input[pos..pos + wordLen]))
      && front == RingPos(|slots|, data.Length)
      && (forall s :: 0 <= s < t.Length ==> t[s] - 1 == LastPos(slots, |slots|, s))
      && (forall pos :: 0 <= pos < |slots| && pos >= |slots| - data.Length ==> data[RingPos(pos, data.Length)] == Delta(slots, pos, data.Length))
    }

    lemma ValidFacts()
      requires Valid()
      ensures t.Length >= 1 && data.Length >= 1 && |wr.table| == 256 && |slots| == Buffered0() && hoff == |input| - wordLen && 1 <= wordLen <= 4
    {
    }

    ghost function Buffered0(): nat
      reads this
    {
      if hoff < 0 then 0 else hoff + 1
    }

    function SlotOfHash(h: Word): (s: nat)
      requires t.Length >= 1
      ensures s < t.Length
    {
      Reduce(h, t.Length)
    }

    ghost function SlotOfWord(word: seq<Byte>): nat
      requires t.Length >= 1 && |wr.table| == 256
    {
      SlotOfHash(WordHash(wr.table, word))
    }

    constructor (capacity: nat, size: nat, length: nat, table: seq<Word>)
      requires 1 <= capacity <= EOS_DIST && size >= 1 && 1 <= length <= 4 && |table| == 256
      ensures Valid() && input == [] && wordLen == length && data.Length == capacity && t.Length == size
      ensures fresh(t) && fresh(data) && fresh(wr) && fresh(hr)
    {
      t := new int[size](_ => 0);
      data := new nat[capacity](_ => 0);
      wordLen := length;
      wr := new CyclicPoly(length, table);
      hr := new CyclicPoly(length, table);
      front, hoff := 0, 0 - (length as int);
      input, slots := [], [];
    }

    function Buffered(): (n: nat)
      reads this
      ensures n == if Buffered0() >= data.Length then data.Length else Buffered0()
    {
      if hoff + 1 <= 0 then 0 else if hoff + 1 >= data.Length then data.Length else hoff + 1
    }

    /** Enters position `pos` at the head of its slot's chain. */
    method PutEntry(h: Word, pos: int)
      requires t.Length >= 1 && 1 <= data.Length && front < data.Length && t != data as object
      requires pos >= 0 ==> pos == hoff == |slots| && front == RingPos(pos, data.Length) && data.Length <= EOS_DIST
      requires forall s :: 0 <= s < t.Length ==> t[s] - 1 == LastPos(slots, |slots|, s)
      requires forall q :: 0 <= q < |slots| && q >= |slots| - data.Length ==> data[RingPos(q, data.Length)] == Delta(slots, q, data.Length)
      modifies `front, `slots, t, data
      ensures pos < 0 ==> slots == old(slots) && front == old(front)
      ensures pos >= 0 ==> slots == old(slots) + [SlotOfHash(h)] && front == RingPos(pos + 1, data.Length)
      ensures forall s :: 0 <= s < t.Length ==> t[s] - 1 == LastPos(slots, |slots|, s)
      ensures forall q :: 0 <= q < |slots| && q >= |slots| - data.Length ==> data[RingPos(q, data.Length)] == Delta(slots, q, data.Length)
    {
      hide LastPos, Delta, RingPos, Reduce;
      if pos < 0 {
        return;
      }
      var i := SlotOfHash(h);
      var last := t[i] - 1;
      t[i] := pos + 1;
      var delta := 0;
      if last >= 0 {
        delta := pos - last;
        if delta > 0xffff_ffff || delta > Buffered() {
          delta := 0;
        }
      }
      ChainGrows(slots, i, data.Length);
      slots := slots + [i];
      RingOffset(pos, 1, data.Length);
      PutDelta(delta);
    }

    method PutDelta(delta: nat)
      requires front < data.Length
      modifies `front, data
      ensures data[..] == old(data[..])[old(front) := delta]
      ensures front == if old(front) + 1 == data.Length then 0 else old(front) + 1
    {
      data[front] := delta;
      front := if front + 1 - data.Length < 0 then front + 1 else front + 1 - data.Length;
    }

    method WriteByte(b: Byte)
      requires Valid()
      modifies this, t, data, wr
      ensures Valid() && input == old(input) + [b]
    {
      hide LastPos, Delta, RingPos, Reduce, WordHash, LastBytes;
      var h := wr.RollByte(b);
      hoff := hoff + 1;
      ghost var before := input;
      input := input + [b];
      RingOffset(|slots|, 1, data.Length);
      WordAt(input, wordLen);
      PutEntry(h, hoff);
      forall pos | 0 <= pos < |slots|
        ensures slots[pos] == SlotOfWord(input[pos..pos + wordLen])
      {
        if pos < |old(slots)| { assert input[pos..pos + wordLen] == before[pos..pos + wordLen]; }
      }
    }

    method Write(p: seq<Byte>)
      requires Valid()
      modifies this, t, data, wr
      ensures Valid() && input == old(input) + p
    {
      hide LastPos, Delta, RingPos, Reduce, WordHash, LastBytes;
      for k := 0 to |p|
        invariant Valid() && input == old(input) + p[..k]
      {
        WriteByte(p[k]);
        assert p[..k] + [p[k]] == p[..k + 1];
      }
      assert p[..|p|] == p;
    }

    /** Walks the chain of a slot through the ring, oldest entries falling out of the window. */
    method GetMatches(h: Word, max: nat) returns (positions: seq<nat>)
      requires Valid()
      ensures positions == Newest(slots, SlotOfHash(h), |slots|, |slots| - Buffered(), max)
    {
      hide LastPos, Delta, Newest, Found, Valid, Reduce, RingPos, WordHash, LastBytes;
      positions := [];
      ValidFacts();
      ghost var s := SlotOfHash(h);
      NewestNone(slots, s, |slots|, |slots|, max);
      NewestNone(slots, s, |slots|, |slots| - Buffered(), 0);
      FoundAll(slots, s, |slots| - Buffered(), max);
      if hoff < 0 || max == 0 {
        return;
      }
      var buffered := Buffered();
      var tailPos := hoff + 1 - buffered;
      var rear := front - buffered;
      if rear >= 0 {
        rear := rear - data.Length;
      }
      var pos := Head(h);
      var delta := pos - tailPos;
      ghost var hi: int := |slots|;
      while true
        invariant 0 <= hi <= |slots| && |positions| < max
        invariant tailPos + delta == LastPos(slots, hi, s)
        invariant Found(positions, slots, s, hi, tailPos, max) == Found([], slots, s, |slots|, tailPos, max)
        decreases hi
      {
        NewestTake(slots, s, hi, tailPos, max, positions);
        if delta < 0 {
          return;
        }
        positions := positions + [tailPos + delta];
        hi := tailPos + delta;
        if |positions| >= max {
          return;
        }
        DeltaLinks(slots, hi, data.Length);
        var u := DeltaAt(rear, delta);
        if u == 0 {
          NewestTake(slots, s, hi, tailPos, max, positions);
          return;
        }
        delta := delta - u;
      }
    }

    /** The newest position of a slot, or -1. */
    method Head(h: Word) returns (pos: int)
      requires Valid()
      ensures pos == LastPos(slots, |slots|, SlotOfHash(h))
    {
      hide LastPos, Delta, RingPos, Reduce;
      return t[SlotOfHash(h)] - 1;
    }

    /** The distance stored for the position `delta` above the tail of the window. */
    method DeltaAt(rear: int, delta: nat) returns (u: nat)
      requires Valid() && hoff >= 0 && delta < Buffered()
      requires rear == if front - Buffered() >= 0 then front - Buffered() - data.Length else front - Buffered()
      ensures u == Delta(slots, |slots| - Buffered() + delta, data.Length)
    {
      hide LastPos, Delta, RingPos, Reduce, WordHash, LastBytes;
      var i := rear + delta;
      if i < 0 {
        i := i + data.Length;
      }
      RingIndex(|slots| - Buffered() + delta, |slots|, Buffered(), data.Length);
      return data[i];
    }

    /** The hash of a whole word, whatever the roller saw before. */
    method Hash(p: seq<Byte>) returns (h: Word)
      requires Valid() && |p| == wordLen
      modifies hr
      ensures Valid() && h == WordHash(wr.table, p)
    {
      hide LastPos, Delta, RingPos, Reduce, WordHash, LastBytes;
      ghost var before := hr.input;
      h := ZERO;
      for k := 0 to |p|
        invariant hr.Valid() && hr.input == before + p[..k]
        invariant k > 0 ==> h == WordHash(hr.table, LastBytes(hr.input, hr.n))
      {
        h := hr.RollByte(p[k]);
        assert p[..k] + [p[k]] == p[..k + 1];
      }
      assert p[..|p|] == p;
      LastWord(before, p);
    }

    /** The newest positions in the window whose word shares the slot of `p`. */
    method Matches(p: seq<Byte>, max: nat) returns (positions: seq<nat>)
      requires Valid() && |p| == wordLen
      modifies hr
      ensures Valid()
      ensures positions == Newest(slots, SlotOfWord(p), |slots|, |slots| - Buffered(), max)
    {
      var h := Hash(p);
      positions := GetMatches(h, max);
    }

    /** The best repetition among the eight shortest distances and the chain's positions, or a literal. */
    method NextOp(dict: LzmaBuffer.EncoderDict, rep0: nat) returns (op: OpSpec.Op)
      requires Valid() && dict.Valid() && hr != wr
      requires input == dict.Hist() && dict.buf.Buffered() >= 1 && dict.buf.data.Length > MAX_MATCH_LEN
      modifies hr
      ensures Valid() && dict.Valid()
      ensures GoodOp(dict.all, dict.head, dict.capacity, rep0, op)
      ensures var left := if dict.buf.Buffered() < MAX_MATCH_LEN then dict.buf.Buffered() else MAX_MATCH_LEN;
              Best(Around(dict, left, rep0), Probes(dict.head, dict.all[dict.head..dict.head + left]), op)
    {
      hide Valid, LzmaBuffer.RingSlice, LzmaBuffer.RecentOf, LzmaBuffer.SameTail, GoodOp, Best, Probes;
      ValidFacts();
      var data := dict.Lookahead(MAX_MATCH_LEN);
      ghost var probes := Probes(dict.head, data);
      var dists := Candidates(dict.head, data);
      op := BestMatch(dict, data, dists, rep0, probes);
    }

    /** The distances looked at: up to eight, and those to the newest positions in the window whose word shares a slot with the next. */
    ghost function Probes(head: nat, data: seq<Byte>): set<nat>
      requires t.Length >= 1 && |wr.table| == 256 && head == |input|
      reads this
    {
      if |data| < wordLen then Distant(head, [])
      else Distant(head, Newest(slots, SlotOfWord(data[..wordLen]), |slots|, if |slots| > Buffered() then |slots| - Buffered() else 0, MAX_MATCHES))
    }

    /** The distances worth a probe: the short ones, then those of the chain. */
    method Candidates(head: nat, data: seq<Byte>) returns (dists: seq<nat>)
      requires Valid() && hr != wr && head == |input|
      modifies hr
      ensures Valid() && Rising(dists) && Listed(dists, Probes(head, data)) && forall d :: d in dists ==> d >= 1
    {
      hide Valid;
      ValidFacts();
      var p := [];
      if |data| >= wordLen {
        p := Matches(data[..wordLen], MAX_MATCHES);
        ghost var s := SlotOfWord(data[..wordLen]);
        NewestSound(slots, s, |slots|, |slots| - Buffered(), MAX_MATCHES);
      }
      dists := Distances(head, p);
    }

    /** Positions in falling order give distances in rising order. */
    method Distances(head: nat, p: seq<nat>) returns (dists: seq<nat>)
      requires Falling(p) && forall q :: q in p ==> q <= head
      ensures Rising(dists) && Listed(dists, Distant(head, p)) && forall d :: d in dists ==> d >= 1
    {
      hide Rising, Falling, Distant;
      DistantNone(head);
      dists := [1, 2, 3, 4, 5, 6, 7, 8];
      RisingShort();
      var k := 0;
      while k < |p|
        invariant k <= |p| && dists != [] && Rising(dists)
        invariant forall d :: d in dists <==> d in Distant(head, p[..k])
        invariant k < |p| ==> dists[|dists| - 1] <= SHORT_DISTS || dists[|dists| - 1] < head - p[k]
      {
        var dis := head - p[k];
        assert p[k] in p;
        if dis > SHORT_DISTS {
          RisingSnoc(dists, dis);
          dists := dists + [dis];
        }
        if k + 1 < |p| { FallingAt(p, k); }
        DistantSnoc(head, p[..k], p[k]);
        assert p[..k + 1] == p[..k] + [p[k]];
        k := k + 1;
      }
      assert p[..k] == p;
      DistantPositive(head, p);
    }
  }

  /** The distances up to eight, and the larger ones from the head to the positions. */
  function Distant(head: nat, p: seq<nat>): (r: set<nat>)
  {
    {1, 2, 3, 4, 5, 6, 7, 8} + (set q | q in p && q + SHORT_DISTS < head :: head - q)
  }

  lemma DistantNone(head: nat)
    ensures Distant(head, []) == {1, 2, 3, 4, 5, 6, 7, 8}
  {
  }

  lemma DistantSnoc(head: nat, p: seq<nat>, q: nat)
    ensures Distant(head, p + [q]) == Distant(head, p) + if q + SHORT_DISTS < head then {head - q} else {}
  {
    var more := if q + SHORT_DISTS < head then {head - q} else {};
    forall d | d in Distant(head, p + [q]) ensures d in Distant(head, p) + more {
      if d > SHORT_DISTS {
        var r :| r in p + [q] && r + SHORT_DISTS < head && d == head - r;
        assert r in p || r == q;
      }
    }
    forall d | d in Distant(head, p) + more ensures d in Distant(head, p + [q]) {
      if d > SHORT_DISTS && d in Distant(head, p) {
        var r :| r in p && r + SHORT_DISTS < head && d == head - r;
        assert r in p + [q];
      } else if d > SHORT_DISTS {
        assert q in p + [q];
      }
    }
  }

  lemma DistantPositive(head: nat, p: seq<nat>)
    ensures forall d :: d in Distant(head, p) ==> d >= 1
  {
  }

  ghost predicate Listed(dists: seq<nat>, ds: set<nat>) { forall d :: d in dists <==> d in ds }

  predicate Rising(ds: seq<nat>)
  {
    |ds| <= 1 || (ds[0] < ds[1] && Rising(ds[1..]))
  }

  lemma RisingShort()
    ensures Rising([1, 2, 3, 4, 5, 6, 7, 8])
  {
    assert Rising([8]);
    RisingCons(7, [8]);
    RisingCons(6, [7, 8]);
    RisingCons(5, [6, 7, 8]);
    RisingCons(4, [5, 6, 7, 8]);
    RisingCons(3, [4, 5, 6, 7, 8]);
    RisingCons(2, [3, 4, 5, 6, 7, 8]);
    RisingCons(1, [2, 3, 4, 5, 6, 7, 8]);
  }

  lemma RisingCons(d: nat, ds: seq<nat>)
    requires ds != [] && Rising(ds) && d < ds[0]
    ensures Rising([d] + ds)
  {
    assert ([d] + ds)[1..] == ds;
  }

  lemma {:induction false} RisingSnoc(ds: seq<nat>, d: nat)
    requires ds != [] && Rising(ds) && ds[|ds| - 1] < d
    ensures Rising(ds + [d])
    decreases |ds|
  {
    if |ds| > 1 {
      RisingSnoc(ds[1..], d);
      assert (ds + [d])[1..] == ds[1..] + [d];
    } else {
      assert (ds + [d])[1..] == [d];
    }
  }

  lemma RisingAt(ds: seq<nat>, k: nat)
    requires Rising(ds) && k + 1 < |ds|
    ensures ds[k] < ds[k + 1]
  {
    if k > 0 { RisingAt(ds[1..], k - 1); }
  }

  /** An operation that describes the next bytes of the input, and that writeMatch accepts. */
  predicate GoodOp(all: seq<Byte>, head: nat, cap: nat, rep0: nat, op: OpSpec.Op)
    requires head <= |all|
  {
    match op
    case Literal(b) => head < |all| && b == all[head]
    case Match(d, n) =>
      && LzmaBuffer.Repeats(all, head, d, n)
      && d <= OpSpec.DictLen(all[..head], cap)
      && (MIN_MATCH_LEN <= n <= MAX_MATCH_LEN || (n == 1 && d - 1 == rep0))
  }

  /** The candidate `dist` with `n` bytes, and what keeps the next probe inside the ring. */
  predicate Candidate(all: seq<Byte>, head: nat, cap: nat, rep0: nat, dist: nat, n: nat, rear: nat, len: nat, left: nat)
    requires head <= |all|
  {
    n == 0 ||
    (n <= left && GoodOp(all, head, cap, rep0, OpSpec.Match(dist, n)) && (rear >= dist ==> rear - dist + n <= len))
  }

  // ----- the best match -----

  /** What the search sees: all input, the head, the capacity, rear end and length of the ring, the bytes ahead, and the last distance. */
  datatype View = View(all: seq<Byte>, head: nat, dictLen: nat, rear: nat, len: nat, left: nat, rep0: nat)

  ghost function Around(dict: LzmaBuffer.EncoderDict, left: nat, rep0: nat): View
    requires dict.Valid()
    reads dict, dict.buf, dict.buf.data
  {
    View(dict.all, dict.head, dict.DictLen(), dict.buf.rear, dict.buf.data.Length, left, rep0)
  }

  /** A repetition of n bytes from d back within the dictionary, not across the end of the ring; one byte only from the last distance. */
  ghost predicate Seen(v: View, d: nat, n: nat)
  {
    && d <= v.dictLen && n <= v.left && LzmaBuffer.Repeats(v.all, v.head, d, n) && (v.rear >= d ==> v.rear - d + n <= v.len)
    && (n >= 2 || (n == 1 && d - 1 == v.rep0))
  }

  /** A longest repetition seen at any of the distances, and of those the nearest; a literal if there is none. */
  ghost predicate Best(v: View, ds: set<nat>, op: OpSpec.Op)
  {
    match op
    case Literal(b) => forall d, n: nat :: d in ds ==> !Seen(v, d, n)
    case Match(d0, n0) => d0 in ds && Seen(v, d0, n0) && forall d, n: nat :: d in ds && Seen(v, d, n) ==> n < n0 || (n == n0 && d >= d0)
  }

  /** No repetition at the first k distances is longer than n0, nor as long and nearer than d0. */
  ghost predicate BestUpTo(v: View, dists: seq<nat>, k: nat, d0: nat, n0: nat)
  {
    && k <= |dists| && (n0 > 0 ==> d0 in dists && Seen(v, d0, n0))
    && forall j, n: nat :: 0 <= j < k && Seen(v, dists[j], n) ==> n < n0 || (n == n0 && dists[j] >= d0)
  }

  lemma BestNone(v: View, dists: seq<nat>)
    ensures BestUpTo(v, dists, 0, 0, 0)
  {
  }

  /** Nothing better at the next distance. */
  lemma BestStays(v: View, dists: seq<nat>, k: nat, d0: nat, n0: nat)
    requires BestUpTo(v, dists, k, d0, n0) && k < |dists| && (n0 > 0 ==> d0 < dists[k]) && forall n: nat :: Seen(v, dists[k], n) ==> n <= n0
    ensures BestUpTo(v, dists, k + 1, d0, n0)
  {
  }

  lemma BestNext(v: View, dists: seq<nat>, k: nat, d0: nat, n0: nat, n1: nat)
    requires BestUpTo(v, dists, k, d0, n0) && k < |dists| && n1 > n0 && Seen(v, dists[k], n1) && forall n: nat :: Seen(v, dists[k], n) ==> n <= n1
    ensures BestUpTo(v, dists, k + 1, dists[k], n1)
  {
  }

  lemma BestOfAll(v: View, dists: seq<nat>, ds: set<nat>, d0: nat, n0: nat, b: Byte)
    requires Listed(dists, ds) && BestUpTo(v, dists, |dists|, d0, n0)
    ensures Best(v, ds, if n0 == 0 then OpSpec.Literal(b) else OpSpec.Match(d0, n0))
  {
    forall d, n: nat | d in ds && Seen(v, d, n) ensures n < n0 || (n == n0 && d >= d0) {
      assert d in dists;
      var j :| 0 <= j < |dists| && dists[j] == d;
    }
  }

  /** All bytes ahead repeat: none of the farther distances can do better. */
  lemma BestAlready(v: View, dists: seq<nat>, k: nat, d0: nat, n0: nat)
    requires BestUpTo(v, dists, k, d0, n0) && n0 == v.left && Rising(dists) && 1 <= k <= |dists| && d0 == dists[k - 1]
    ensures BestUpTo(v, dists, |dists|, d0, n0)
  {
    forall j | k <= j < |dists| ensures dists[j] >= d0 { RisingFar(dists, k - 1, j); }
  }

  lemma {:induction false} RisingFar(ds: seq<nat>, j: nat, k: nat)
    requires Rising(ds) && j < k < |ds|
    ensures ds[j] < ds[k]
    decreases k
  {
    RisingAt(ds, k - 1);
    if j < k - 1 { RisingFar(ds, j, k - 1); }
  }

  /** Where the byte behind the best match differs, no longer one can begin. */
  lemma NotLonger(v: View, d: nat, m: nat)
    requires v.head + m < |v.all| && d <= v.head && v.all[v.head + m] != v.all[v.head + m - d]
    ensures forall n: nat :: Seen(v, d, n) ==> n <= m
  {
  }

  /** The prefix found is the longest repetition seen at the distance. */
  lemma LongestSeen(v: View, d: nat, m: nat)
    requires v.head + v.left <= |v.all| && 1 <= d <= v.head && m <= v.left
    requires m < v.left ==> (v.rear >= d && v.rear - d + m == v.len) || v.all[v.head + m] != v.all[v.head + m - d]
    ensures forall n: nat :: Seen(v, d, n) ==> n <= m
  {
    if m < v.left && v.all[v.head + m] != v.all[v.head + m - d] { NotLonger(v, d, m); }
  }

  /** The byte that a longer repetition would have to agree in. */
  lemma ProbeInRing(dict: LzmaBuffer.EncoderDict, dist: nat, m: nat)
    requires dict.Valid() && 1 <= dist <= dict.DictLen() && m < dict.buf.Buffered()
    requires dict.buf.rear >= dist ==> dict.buf.rear - dist + m < dict.buf.data.Length
    ensures var i := dict.buf.rear - dist + m;
            var j := if i < 0 then i + dict.buf.data.Length else i;
            0 <= j < dict.buf.data.Length && dict.head + m < |dict.all| && dist <= dict.head && dict.buf.data[j] == dict.all[dict.head + m - dist]
  {
    hide LzmaBuffer.RingSlice, LzmaBuffer.RecentOf, LzmaBuffer.SameTail;
    dict.RingIsInput(m - dist);
  }

  lemma TooFar(v: View, d: nat)
    requires d > v.dictLen
    ensures forall n: nat :: !Seen(v, d, n)
  {
  }

  lemma TooShort(v: View, d: nat, m: nat)
    requires (forall n: nat :: Seen(v, d, n) ==> n <= m) && (m == 0 || (m == 1 && d - 1 != v.rep0))
    ensures forall n: nat :: !Seen(v, d, n)
  {
  }

  lemma NoCandidate(v: View, cap: nat)
    requires v.head <= |v.all|
    ensures Candidate(v.all, v.head, cap, v.rep0, 0, 0, v.rear, v.len, v.left)
  {
  }

  /** What has been found can be written. */
  lemma NowCandidate(v: View, cap: nat, d: nat, n: nat)
    requires v.head <= |v.all| && v.dictLen == OpSpec.DictLen(v.all[..v.head], cap) && d <= v.dictLen && n <= v.left <= MAX_MATCH_LEN
    requires LzmaBuffer.Repeats(v.all, v.head, d, n) && (v.rear >= d ==> v.rear - d + n <= v.len) && (n >= 2 || (n == 1 && d - 1 == v.rep0))
    ensures Candidate(v.all, v.head, cap, v.rep0, d, n, v.rear, v.len, v.left) && Seen(v, d, n)
  {
  }

  lemma CandidateGood(all: seq<Byte>, head: nat, cap: nat, rep0: nat, d: nat, n: nat, rear: nat, len: nat, left: nat)
    requires head < |all| && Candidate(all, head, cap, rep0, d, n, rear, len, left)
    ensures GoodOp(all, head, cap, rep0, if n == 0 then OpSpec.Literal(all[head]) else OpSpec.Match(d, n))
  {
  }

  lemma DictBounds(dict: LzmaBuffer.EncoderDict)
    requires dict.Valid()
    ensures dict.head + dict.buf.Buffered() == |dict.all| && dict.DictLen() <= dict.Len() <= dict.head && dict.buf.rear < dict.buf.data.Length
    ensures dict.DictLen() == OpSpec.DictLen(dict.all[..dict.head], dict.capacity)
  {
    hide LzmaBuffer.RingSlice, LzmaBuffer.RecentOf, LzmaBuffer.SameTail;
  }

  lemma CandidateFits(all: seq<Byte>, head: nat, cap: nat, rep0: nat, d: nat, n: nat, rear: nat, len: nat, left: nat, dist: nat)
    requires head <= |all| && Candidate(all, head, cap, rep0, d, n, rear, len, left) && (n > 0 ==> d < dist) && rear < len
    ensures rear >= dist && dist >= 1 ==> rear - dist + n < len
  {
  }

  lemma AtMostOne(v: View, d: nat, n: nat, m: nat)
    requires forall k: nat :: Seen(v, d, k) ==> k <= if n > m then n else m
    ensures n <= m ==> forall k: nat :: Seen(v, d, k) ==> k <= m
    ensures n > m ==> forall k: nat :: Seen(v, d, k) ==> k <= n
  {
    hide Seen;
  }

  /** The repetition at one distance if it is longer than m bytes; whether it can be, one byte decides cheaply. */
  method TryDistance(dict: LzmaBuffer.EncoderDict, data: seq<Byte>, dist: nat, m: nat, rep0: nat) returns (n: nat)
    requires dict.Valid() && |data| <= MAX_MATCH_LEN && dist >= 1 && m < |data| <= dict.buf.Buffered()
    requires data == dict.all[dict.head..dict.head + |data|]
    requires dict.buf.rear >= dist ==> dict.buf.rear - dist + m < dict.buf.data.Length
    ensures n <= |data|
    ensures var v := Around(dict, |data|, rep0);
            && (n > m ==> Seen(v, dist, n) && Candidate(dict.all, dict.head, dict.capacity, rep0, dist, n, dict.buf.rear, dict.buf.data.Length, |data|))
            && forall k: nat :: Seen(v, dist, k) ==> k <= if n > m then n else m
  {
    hide LzmaBuffer.RingSlice, LzmaBuffer.RecentOf, LzmaBuffer.SameTail, LzmaBuffer.Repeats, LzmaBuffer.EncoderDict.Valid, Seen, Candidate, GoodOp;
    ghost var v := Around(dict, |data|, rep0);
    DictBounds(dict);
    if dist > dict.DictLen() {
      TooFar(v, dist);
      return 0;
    }
    ProbeInRing(dict, dist, m);
    var i: int := dict.buf.rear - dist + m;
    if i < 0 {
      i := i + dict.buf.data.Length;
    }
    if dict.buf.data[i] != data[m] {
      NotLonger(v, dist, m);
      return 0;
    }
    n := dict.MatchLen(dist, data);
    LongestSeen(v, dist, n);
    if n == 0 || (n == 1 && dist - 1 != rep0) {
      TooShort(v, dist, n);
      return 0;
    }
    NowCandidate(v, dict.capacity, dist, n);
  }

  /** Tries the distances in rising order; a later one must be strictly longer. */
  method BestMatch(dict: LzmaBuffer.EncoderDict, data: seq<Byte>, dists: seq<nat>, rep0: nat, ghost ds: set<nat>) returns (op: OpSpec.Op)
    requires dict.Valid() && dict.buf.data.Length > MAX_MATCH_LEN
    requires 1 <= |data| <= MAX_MATCH_LEN && |data| <= dict.buf.Buffered() && data == dict.all[dict.head..dict.head + |data|]
    requires Rising(dists) && Listed(dists, ds) && forall d :: d in dists ==> d >= 1
    ensures GoodOp(dict.all, dict.head, dict.capacity, rep0, op)
    ensures Best(Around(dict, |data|, rep0), ds, op)
  {
    hide LzmaBuffer.RingSlice, LzmaBuffer.RecentOf, LzmaBuffer.SameTail, BestUpTo, Best, Rising, Listed, Seen, Candidate, GoodOp;
    var mDist, mLen := 0, 0;
    var k := 0;
    ghost var v := Around(dict, |data|, rep0);
    BestNone(v, dists);
    NoCandidate(v, dict.capacity);
    while k < |dists| && mLen < |data|
      invariant k <= |dists| && 0 <= mLen <= |data| && (k == 0 ==> mLen == 0)
      invariant Candidate(dict.all, dict.head, dict.capacity, rep0, mDist, mLen, v.rear, v.len, |data|)
      invariant k < |dists| && mLen > 0 ==> mDist < dists[k]
      invariant mLen > 0 ==> BestUpTo(v, dists, if mLen == |data| then |dists| else k, mDist, mLen)
      invariant mLen == 0 ==> BestUpTo(v, dists, k, mDist, mLen)
    {
      var dist := dists[k];
      assert dist in dists;
      CandidateFits(dict.all, dict.head, dict.capacity, rep0, mDist, mLen, v.rear, v.len, |data|, dist);
      var n := TryDistance(dict, data, dist, mLen, rep0);
      assert Around(dict, |data|, rep0) == v;
      AtMostOne(v, dist, n, mLen);
      if n > mLen {
        BestNext(v, dists, k, mDist, mLen, n);
        mDist, mLen := dist, n;
        if n == |data| { BestAlready(v, dists, k + 1, mDist, mLen); }
      } else {
        BestStays(v, dists, k, mDist, mLen);
      }
      if k + 1 < |dists| { RisingAt(dists, k); }
      k := k + 1;
    }
    BestOfAll(v, dists, ds, mDist, mLen, data[0]);
    CandidateGood(dict.all, dict.head, dict.capacity, rep0, mDist, mLen, v.rear, v.len, |data|);
    if mLen == 0 {
      return OpSpec.Literal(data[0]);
    }
    return OpSpec.Match(mDist, mLen);
  }

  lemma {:induction false} RingOffset(n: nat, d: nat, len: nat)
    requires len >= 1 && d <= len
    ensures RingPos(n + d, len) == if RingPos(n, len) + d >= len then RingPos(n, len) + d - len else RingPos(n, len) + d
    decreases n
  {
    if n >= len { RingOffset(n - len, d, len); }
  }

  /** The index arithmetic of the walk is position modulo length. */
  lemma RingIndex(pos: nat, count: nat, buffered: nat, len: nat)
    requires len >= 1 && buffered <= len && buffered <= count && count - buffered <= pos < count
    ensures var rear := if RingPos(count, len) - buffered >= 0 then RingPos(count, len) - buffered - len else RingPos(count, len) - buffered;
            var i := rear + (pos - (count - buffered));
            RingPos(pos, len) == if i < 0 then i + len else i
  {
    RingOffset(pos, count - pos, len);
  }
}
