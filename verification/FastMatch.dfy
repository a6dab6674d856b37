/** The sequences a greedy encoder may emit, told from what executing them gives. */
module FastMatch {
  import opened Bits
  import opened Results
  import opened LzmaBuffer
  import OpSpec
  import BitStream
  import opened SequenceCodes
  import opened SequenceSpec
  import opened SequenceDecoder
  import opened SequenceExec
  import opened SequenceSync

  // ----- common prefixes, eight bytes at a time -----

  /** How many low bits two different numbers share: the trailing zeros of their exclusive or. */
  function SharedBits(x: nat, y: nat): nat
    requires x != y
    decreases x + y
  {
    if x % 2 != y % 2 then 0 else 1 + SharedBits(x / 2, y / 2)
  }

  lemma {:induction false} SharedAbove(x: nat, y: nat, low: nat, k: nat)
    requires x != y && low < Pow2(k)
    ensures low + x * Pow2(k) != low + y * Pow2(k) && SharedBits(low + x * Pow2(k), low + y * Pow2(k)) == k + SharedBits(x, y)
    decreases k
  {
    if k > 0 {
      var p := Pow2(k - 1);
      MulDouble(x, p);
      MulDouble(y, p);
      assert (low + 2 * (x * p)) / 2 == low / 2 + x * p && (low + 2 * (y * p)) / 2 == low / 2 + y * p;
      assert (low + 2 * (x * p)) % 2 == low % 2 && (low + 2 * (y * p)) % 2 == low % 2;
      SharedAbove(x, y, low / 2, k - 1);
    }
  }

  /** The number of shared bits, in bytes, is where the first byte differs. */
  lemma {:induction false} FirstDifference(a: seq<Byte>, b: seq<Byte>)
    requires |a| == |b| && a != b
    ensures BitStream.Little(a) != BitStream.Little(b)
    ensures var k := SharedBits(BitStream.Little(a), BitStream.Little(b)) / 8;
            k < |a| && a[..k] == b[..k] && a[k] != b[k]
    decreases |a|
  {
    hide Pow2, SharedBits;
    PowersToByte();
    var x, y := BitStream.Little(a[1..]), BitStream.Little(b[1..]);
    assert BitStream.Little(a) == a[0] + 256 * x && BitStream.Little(b) == b[0] + 256 * y;
    if a[0] == b[0] {
      assert a == [a[0]] + a[1..] && b == [b[0]] + b[1..];
      FirstDifference(a[1..], b[1..]);
      SharedAbove(x, y, a[0], 8);
      var k := SharedBits(x, y) / 8;
      assert a[1..][..k] == a[..k + 1][1..] && b[1..][..k] == b[..k + 1][1..];
      assert a[..k + 1] == [a[0]] + a[..k + 1][1..] && b[..k + 1] == [b[0]] + b[..k + 1][1..];
    } else {
      SharedInByte(a[0], b[0], x, y);
    }
  }

  lemma SharedInByte(c: Byte, d: Byte, x: nat, y: nat)
    requires c != d
    ensures c + 256 * x != d + 256 * y && SharedBits(c + 256 * x, d + 256 * y) < 8
  {
    hide SharedBits, Low;
    BitStream.LowByte(c + 256 * x);
    BitStream.LowByte(d + 256 * y);
    LowDiffers(c + 256 * x, d + 256 * y, 8);
  }

  lemma {:induction false} LowDiffers(u: nat, v: nat, n: nat)
    requires Low(u, n) != Low(v, n)
    ensures u != v && SharedBits(u, v) < n
    decreases n
  {
    if n > 0 && u % 2 == v % 2 { LowDiffers(u / 2, v / 2, n - 1); }
  }

  /** The length of the longest common prefix of a and b, a no longer than b. */
  method MatchLen(a: seq<Byte>, b: seq<Byte>) returns (n: nat)
    requires |a| <= |b|
    ensures n <= |a| && a[..n] == b[..n] && (n < |a| ==> a[n] != b[n])
  {
    hide SharedBits;
    n := 0;
    while |a| - n >= 8
      invariant n <= |a| && a[..n] == b[..n]
    {
      if a[n..n + 8] != b[n..n + 8] {
        FirstDifference(a[n..n + 8], b[n..n + 8]);
        var k := SharedBits(BitStream.Little(a[n..n + 8]), BitStream.Little(b[n..n + 8])) / 8;
        PrefixGrows(a, b, n, k);
        return n + k;
      }
      PrefixGrows(a, b, n, 8);
      n := n + 8;
    }
    while n < |a| && a[n] == b[n]
      invariant n <= |a| && a[..n] == b[..n]
    {
      n := n + 1;
    }
  }

  lemma PrefixGrows(a: seq<Byte>, b: seq<Byte>, n: nat, k: nat)
    requires n + 8 <= |a| <= |b| && k <= 8 && a[..n] == b[..n] && a[n..n + 8][..k] == b[n..n + 8][..k]
    ensures a[..n + k] == b[..n + k]
  {
    assert a[..n + k] == a[..n] + a[n..n + 8][..k];
    assert b[..n + k] == b[..n] + b[n..n + 8][..k];
  }

  // ----- sequences and what they say -----

  /** The distances that coded sequences stand for, and the recent offsets after them. */
  function ResolveAll(prev: Offsets, qs: seq<Seq>): (r: (seq<SeqVals>, Offsets))
    requires forall k :: 0 <= k < |qs| ==> SeqOk(qs[k])
    ensures |r.0| == |qs|
    decreases |qs|
  {
    if qs == [] then ([], prev)
    else
      var (xs, p) := ResolveAll(prev, qs[..|qs| - 1]);
      var (x, p') := Resolve(p, Decoded(qs[|qs| - 1]));
      (xs + [x], p')
  }

  lemma ResolveSnoc(prev: Offsets, qs: seq<Seq>, q: Seq)
    requires SeqOk(q) && forall k :: 0 <= k < |qs| ==> SeqOk(qs[k])
    ensures var (xs, p) := ResolveAll(prev, qs);
            var (x, p') := Resolve(p, Decoded(q));
            ResolveAll(prev, qs + [q]) == (xs + [x], p')
  {
    hide Resolve, SeqOk;
    assert (qs + [q])[..|qs|] == qs && (qs + [q])[|qs|] == q;
  }

  /** A new distance. */
  lemma ResolveNew(p: Offsets, ll: nat, ml: nat, d: nat)
    requires 1 <= d && d + 3 < OF_LIMIT && ll < LL_LIMIT && ml < ML_LIMIT
    ensures SeqOk(Seq(ll, ml, d + 3)) && Resolve(p, Decoded(Seq(ll, ml, d + 3))) == (SeqVals(ll, d, ml + 3), Offsets(d, p.o1, p.o2))
  {
    hide Pow2;
    BitLenFour(d + 3);
  }

  /** The most recent distance again, after some literals. */
  lemma ResolveRepeat(p: Offsets, ll: nat, ml: nat)
    requires 1 <= ll < LL_LIMIT && ml < ML_LIMIT
    ensures SeqOk(Seq(ll, ml, 1)) && Resolve(p, Decoded(Seq(ll, ml, 1))) == (SeqVals(ll, p.o1, ml + 3), p)
  {
    assert OfCode(1) == 0 by { assert BitLen(1) == 1 + BitLen(0); }
  }

  /** The distance before it, when there are no literals: the two change places. */
  lemma ResolveSwap(p: Offsets, ml: nat)
    requires ml < ML_LIMIT && p.o2 >= 1
    ensures SeqOk(Seq(0, ml, 1)) && Resolve(p, Decoded(Seq(0, ml, 1))) == (SeqVals(0, p.o2, ml + 3), Offsets(p.o2, p.o1, p.o3))
  {
    assert OfCode(1) == 0 by { assert BitLen(1) == 1 + BitLen(0); }
  }

  /**
   The sequences and literals so far execute to the input up to `upTo`, whatever recent offsets the decoder starts with,
   and the two offsets of the encoder are the decoder's once there are that many sequences.
   */
  ghost predicate Says(hist: seq<Byte>, start: nat, upTo: nat, window: nat, qs: seq<Seq>, xs: seq<SeqVals>, lits: seq<Byte>, offset1: int, offset2: int)
  {
    && start <= upTo <= |hist|
    && Resolves(qs, xs, offset1, offset2)
    && ExecPart([], hist[..start], window, [], xs, lits) == Ok((hist[start..upTo], []))
    && (|qs| >= 1 ==> 1 <= offset1 <= upTo && offset1 <= window)
    && (|qs| >= 2 ==> 1 <= offset2 <= upTo && offset2 <= window)
  }

  /** From any recent offsets the sequences stand for the same distances. */
  ghost predicate Resolves(qs: seq<Seq>, xs: seq<SeqVals>, offset1: int, offset2: int)
  {
    (forall k :: 0 <= k < |qs| ==> SeqOk(qs[k])) && forall prev :: SaysFrom(prev, qs, xs, offset1, offset2)
  }

  ghost predicate SaysFrom(prev: Offsets, qs: seq<Seq>, xs: seq<SeqVals>, offset1: int, offset2: int)
    requires forall k :: 0 <= k < |qs| ==> SeqOk(qs[k])
  {
    var (ys, p) := ResolveAll(prev, qs);
    ys == xs && (|qs| >= 1 ==> p.o1 == offset1) && (|qs| >= 2 ==> p.o2 == offset2)
  }

  lemma ResolvedAs(prev: Offsets, qs: seq<Seq>, xs: seq<SeqVals>, offset1: int, offset2: int)
    requires (forall k :: 0 <= k < |qs| ==> SeqOk(qs[k])) && SaysFrom(prev, qs, xs, offset1, offset2)
    ensures ResolveAll(prev, qs).0 == xs
  {
    hide SeqOk, ResolveAll;
  }

  lemma SaysNothing(hist: seq<Byte>, start: nat, window: nat, offset1: int, offset2: int)
    requires start <= |hist|
    ensures Says(hist, start, start, window, [], [], [], offset1, offset2)
  {
    NothingDone([], hist[..start], window, [], []);
    assert hist[start..start] == [];
    forall prev: Offsets
      ensures SaysFrom(prev, [], [], offset1, offset2)
    {
      assert ResolveAll(prev, []) == ([], prev);
    }
  }

  /** Literals up to `head` and a repetition from there on. */
  lemma ExecGrows(hist: seq<Byte>, start: nat, upTo: nat, head: nat, window: nat, xs: seq<SeqVals>, lits: seq<Byte>, d: nat, n: nat)
    requires start <= upTo <= head <= |hist| && Repeats(hist, head, d, n) && d <= window && n >= 1
    requires ExecPart([], hist[..start], window, [], xs, lits) == Ok((hist[start..upTo], []))
    ensures ExecPart([], hist[..start], window, [], xs + [SeqVals(head - upTo, d, n)], lits + hist[upTo..head]) == Ok((hist[start..head + n], []))
  {
    hide ExecPart, ExecOne, Repeats;
    var x, more := SeqVals(head - upTo, d, n), hist[upTo..head];
    ExecMoreLits([], hist[..start], window, [], xs, lits, more);
    assert [] + more == more;
    ExecSnoc([], hist[..start], window, [], xs, x, lits + more);
    ExecsTo(hist, start, upTo, head, window, d, n);
  }

  lemma ExecsTo(hist: seq<Byte>, start: nat, upTo: nat, head: nat, window: nat, d: nat, n: nat)
    requires start <= upTo <= head <= |hist| && Repeats(hist, head, d, n) && d <= window && n >= 1
    ensures ExecOne([], hist[..start], window, hist[start..upTo], SeqVals(head - upTo, d, n), hist[upTo..head]) == Ok((hist[start..head + n], []))
  {
    hide OpSpec.CopyBack, Repeats;
    RepeatsFacts(hist, head, d, n);
    var x, more := SeqVals(head - upTo, d, n), hist[upTo..head];
    assert hist[start..upTo] + more[..x.ll] == hist[start..head];
    assert [] + hist[..start] == hist[..start];
    assert hist[..start] + hist[start..head] == hist[..head];
    RepetitionIsCopy(hist, head, d, n);
    assert hist[..head + n][start..] == hist[start..head + n];
    assert more[x.ll..] == [];
  }

  lemma {:induction false} ExecMoreLits(dict: seq<Byte>, hist: seq<Byte>, window: nat, out: seq<Byte>, xs: seq<SeqVals>, lits: seq<Byte>, more: seq<Byte>)
    ensures match ExecPart(dict, hist, window, out, xs, lits)
            case Err(_) => true
            case Ok((o, l)) => ExecPart(dict, hist, window, out, xs, lits + more) == Ok((o, l + more))
    decreases |xs|
  {
    hide CopyMatch, Reaches;
    if xs != [] {
      ExecMoreLits(dict, hist, window, out, xs[..|xs| - 1], lits, more);
      var r := ExecPart(dict, hist, window, out, xs[..|xs| - 1], lits);
      if r.Ok? {
        var l, x := r.value.1, xs[|xs| - 1];
        if x.ll <= |l| {
          assert (l + more)[..x.ll] == l[..x.ll] && (l + more)[x.ll..] == l[x.ll..] + more;
        }
      }
    }
  }

  /** A match at a new distance. */
  lemma SaysNew(hist: seq<Byte>, start: nat, upTo: nat, head: nat, window: nat, qs: seq<Seq>, xs: seq<SeqVals>, lits: seq<Byte>, offset1: int, offset2: int, d: nat, n: nat)
    requires Says(hist, start, upTo, window, qs, xs, lits, offset1, offset2) && upTo <= head
    requires Repeats(hist, head, d, n) && d <= window && 3 <= n && n - 3 < ML_LIMIT && d + 3 < OF_LIMIT && head - upTo < LL_LIMIT
    ensures Says(hist, start, head + n, window, qs + [Seq(head - upTo, n - 3, d + 3)], xs + [SeqVals(head - upTo, d, n)],
                 lits + hist[upTo..head], d, offset1)
  {
    hide SeqOk, Resolve, Decoded, ExecPart, Repeats, Resolves;
    var q := Seq(head - upTo, n - 3, d + 3);
    RepeatsFacts(hist, head, d, n);
    ExecGrows(hist, start, upTo, head, window, xs, lits, d, n);
    ResolveNew(Offsets(0, 0, 0), q.litLen, q.matchLen, d);
    ResolvesNew(qs, xs, offset1, offset2, q, d);
  }

  lemma ResolvesNew(qs: seq<Seq>, xs: seq<SeqVals>, offset1: int, offset2: int, q: Seq, d: nat)
    requires SeqOk(q) && Resolves(qs, xs, offset1, offset2) && 1 <= d && q.offset == d + 3
    ensures Resolves(qs + [q], xs + [SeqVals(q.litLen, d, q.matchLen + 3)], d, offset1)
  {
    hide SaysFrom;
    var qs', ys := qs + [q], xs + [SeqVals(q.litLen, d, q.matchLen + 3)];
    forall prev: Offsets
      ensures SaysFrom(prev, qs', ys, d, offset1)
    {
      ResolvesNewFrom(prev, qs, xs, offset1, offset2, q, d);
    }
  }

  lemma ResolvesNewFrom(prev: Offsets, qs: seq<Seq>, xs: seq<SeqVals>, offset1: int, offset2: int, q: Seq, d: nat)
    requires SeqOk(q) && (forall k :: 0 <= k < |qs| ==> SeqOk(qs[k])) && 1 <= d && q.offset == d + 3
    requires SaysFrom(prev, qs, xs, offset1, offset2)
    ensures (forall k :: 0 <= k < |qs + [q]| ==> SeqOk((qs + [q])[k])) && SaysFrom(prev, qs + [q], xs + [SeqVals(q.litLen, d, q.matchLen + 3)], d, offset1)
  {
    hide Resolve, Decoded, ResolveAll;
    ResolveSnoc(prev, qs, q);
    ResolveNew(ResolveAll(prev, qs).1, q.litLen, q.matchLen, d);
  }

  lemma RepeatsFacts(hist: seq<Byte>, head: nat, d: nat, n: nat)
    requires Repeats(hist, head, d, n)
    ensures 1 <= d <= head && head + n <= |hist|
  {
  }

  /** A match at the most recent distance, after literals. */
  lemma SaysRepeat(hist: seq<Byte>, start: nat, upTo: nat, head: nat, window: nat, qs: seq<Seq>, xs: seq<SeqVals>, lits: seq<Byte>, offset1: nat, offset2: int, n: nat)
    requires Says(hist, start, upTo, window, qs, xs, lits, offset1, offset2) && upTo < head && |qs| >= 2
    requires Repeats(hist, head, offset1, n) && 3 <= n && n - 3 < ML_LIMIT && head - upTo < LL_LIMIT
    ensures Says(hist, start, head + n, window, qs + [Seq(head - upTo, n - 3, 1)], xs + [SeqVals(head - upTo, offset1, n)],
                 lits + hist[upTo..head], offset1, offset2)
  {
    hide SeqOk, Resolve, Decoded, ExecPart, Repeats, Resolves;
    var q := Seq(head - upTo, n - 3, 1);
    RepeatsFacts(hist, head, offset1, n);
    ExecGrows(hist, start, upTo, head, window, xs, lits, offset1, n);
    ResolveRepeat(Offsets(0, 0, 0), q.litLen, q.matchLen);
    ResolvesRepeat(qs, xs, offset1, offset2, q);
  }

  lemma ResolvesRepeat(qs: seq<Seq>, xs: seq<SeqVals>, offset1: int, offset2: int, q: Seq)
    requires SeqOk(q) && Resolves(qs, xs, offset1, offset2) && q.offset == 1 && q.litLen >= 1 && |qs| >= 2 && offset1 >= 0
    ensures Resolves(qs + [q], xs + [SeqVals(q.litLen, offset1, q.matchLen + 3)], offset1, offset2)
  {
    hide SaysFrom;
    var qs', ys := qs + [q], xs + [SeqVals(q.litLen, offset1, q.matchLen + 3)];
    forall prev: Offsets
      ensures SaysFrom(prev, qs', ys, offset1, offset2)
    {
      ResolvesRepeatFrom(prev, qs, xs, offset1, offset2, q);
    }
  }

  lemma ResolvesRepeatFrom(prev: Offsets, qs: seq<Seq>, xs: seq<SeqVals>, offset1: int, offset2: int, q: Seq)
    requires SeqOk(q) && (forall k :: 0 <= k < |qs| ==> SeqOk(qs[k])) && q.offset == 1 && q.litLen >= 1 && |qs| >= 2 && offset1 >= 0
    requires SaysFrom(prev, qs, xs, offset1, offset2)
    ensures (forall k :: 0 <= k < |qs + [q]| ==> SeqOk((qs + [q])[k])) && SaysFrom(prev, qs + [q], xs + [SeqVals(q.litLen, offset1, q.matchLen + 3)], offset1, offset2)
  {
    hide Resolve, Decoded, ResolveAll;
    ResolveSnoc(prev, qs, q);
    ResolveRepeat(ResolveAll(prev, qs).1, q.litLen, q.matchLen);
  }

  /** A match at the second most recent distance, right after another match. */
  lemma SaysSwap(hist: seq<Byte>, start: nat, upTo: nat, window: nat, qs: seq<Seq>, xs: seq<SeqVals>, lits: seq<Byte>, offset1: int, offset2: nat, n: nat)
    requires Says(hist, start, upTo, window, qs, xs, lits, offset1, offset2) && |qs| >= 2
    requires Repeats(hist, upTo, offset2, n) && 3 <= n && n - 3 < ML_LIMIT
    ensures Says(hist, start, upTo + n, window, qs + [Seq(0, n - 3, 1)], xs + [SeqVals(0, offset2, n)], lits, offset2, offset1)
  {
    hide SeqOk, Resolve, Decoded, ExecPart, Repeats, Resolves;
    var q := Seq(0, n - 3, 1);
    RepeatsFacts(hist, upTo, offset2, n);
    ExecGrows(hist, start, upTo, upTo, window, xs, lits, offset2, n);
    assert lits + hist[upTo..upTo] == lits;
    ResolveRepeat(Offsets(0, 0, 0), 1, q.matchLen);
    ResolveSwap(Offsets(1, 1, 1), q.matchLen);
    ResolvesSwap(qs, xs, offset1, offset2, q);
  }

  lemma ResolvesSwap(qs: seq<Seq>, xs: seq<SeqVals>, offset1: int, offset2: int, q: Seq)
    requires SeqOk(q) && Resolves(qs, xs, offset1, offset2) && q.offset == 1 && q.litLen == 0 && |qs| >= 2 && offset2 >= 1
    ensures Resolves(qs + [q], xs + [SeqVals(0, offset2, q.matchLen + 3)], offset2, offset1)
  {
    hide SaysFrom;
    var qs', ys := qs + [q], xs + [SeqVals(0, offset2, q.matchLen + 3)];
    forall prev: Offsets
      ensures SaysFrom(prev, qs', ys, offset2, offset1)
    {
      ResolvesSwapFrom(prev, qs, xs, offset1, offset2, q);
    }
  }

  lemma ResolvesSwapFrom(prev: Offsets, qs: seq<Seq>, xs: seq<SeqVals>, offset1: int, offset2: int, q: Seq)
    requires SeqOk(q) && (forall k :: 0 <= k < |qs| ==> SeqOk(qs[k])) && q.offset == 1 && q.litLen == 0 && |qs| >= 2 && offset2 >= 1
    requires SaysFrom(prev, qs, xs, offset1, offset2)
    ensures (forall k :: 0 <= k < |qs + [q]| ==> SeqOk((qs + [q])[k])) && SaysFrom(prev, qs + [q], xs + [SeqVals(0, offset2, q.matchLen + 3)], offset2, offset1)
  {
    hide Resolve, Decoded, ResolveAll;
    ResolveSnoc(prev, qs, q);
    ResolveSwap(ResolveAll(prev, qs).1, q.matchLen);
  }

  /** The rest of the input as literals completes the block. */
  lemma SaysAll(hist: seq<Byte>, start: nat, upTo: nat, window: nat, qs: seq<Seq>, xs: seq<SeqVals>, lits: seq<Byte>, offset1: int, offset2: int)
    requires Says(hist, start, upTo, window, qs, xs, lits, offset1, offset2)
    ensures Execute([], hist[..start], window, [], xs, lits + hist[upTo..]) == Ok(hist[start..])
  {
    hide ExecPart, Resolves, Execute;
    ExecMoreLits([], hist[..start], window, [], xs, lits, hist[upTo..]);
    PartIsAll([], hist[..start], window, [], xs, lits + hist[upTo..]);
    assert [] + hist[upTo..] == hist[upTo..];
    assert hist[start..upTo] + hist[upTo..] == hist[start..];
  }
}
