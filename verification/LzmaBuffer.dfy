/** The circular byte buffer and the two dictionaries built on it. */
module LzmaBuffer {
  import opened Bits
  import opened Results
  import opened CodecSpec
  import OpSpec

  /** The slot `i`, up to one turn before or behind the ends of a ring of `len` slots. */
  function WrapAt(len: nat, i: int): int { if i < 0 then i + len else if i >= len then i - len else i }

  lemma WrapBack(len: nat, i: nat, d: nat)
    requires i < len
    ensures WrapAt(len, i - d) == if i - d < 0 then i - d + len else i - d
  {
  }

  /** `n` slots of the ring `d`, in order, starting with slot `from`. */
  function RingSlice(d: seq<Byte>, from: nat, n: nat): (s: seq<Byte>)
    requires from < |d| && n <= |d|
    ensures |s| == n && forall k :: 0 <= k < n ==> s[k] == d[WrapAt(|d|, from + k)]
  {
    seq(n, k requires 0 <= k < n => d[WrapAt(|d|, from + k)])
  }

  lemma RingSliceConcat(d: seq<Byte>, from: nat, m: nat, n: nat)
    requires from < |d| && m + n <= |d| && m < |d|
    ensures RingSlice(d, from, m + n) == RingSlice(d, from, m) + RingSlice(d, WrapAt(|d|, from + m), n)
  {
    var a, b, c := RingSlice(d, from, m + n), RingSlice(d, from, m), RingSlice(d, WrapAt(|d|, from + m), n);
    forall k | 0 <= k < m + n
      ensures a[k] == (b + c)[k]
    {
      if k >= m { assert c[k - m] == d[WrapAt(|d|, WrapAt(|d|, from + m) + (k - m))]; }
    }
  }

  /** `e` is the ring `d` after `p` was put in at slot `front`. */
  predicate PutIn(d: seq<Byte>, e: seq<Byte>, front: nat, p: seq<Byte>)
    requires front < |d| && |p| < |d|
  {
    && |e| == |d|
    && (forall k :: 0 <= k < |p| ==> p[k] == e[WrapAt(|d|, front + k)])
    && (forall q :: 0 <= q < |d| && !(front <= q < front + |p|) && !(front <= q + |d| < front + |p|) ==> e[q] == d[q])
  }

  /** Unread bytes stay, new ones follow them. */
  lemma PutInContents(d: seq<Byte>, e: seq<Byte>, rear: nat, m: nat, p: seq<Byte>)
    requires rear < |d| && m + |p| < |d|
    requires PutIn(d, e, WrapAt(|d|, rear + m), p)
    ensures RingSlice(e, rear, m + |p|) == RingSlice(d, rear, m) + p
  {
    var front := WrapAt(|d|, rear + m);
    RingSliceConcat(e, rear, m, |p|);
    assert RingSlice(e, front, |p|) == p;
    assert RingSlice(e, rear, m) == RingSlice(d, rear, m);
  }

  /** The last |d| - 1 bytes written, oldest first. */
  function RecentOf(d: seq<Byte>, front: nat): seq<Byte>
    requires 2 <= |d| && front < |d|
  {
    RingSlice(d, WrapAt(|d|, front + 1), |d| - 1)
  }

  lemma RecentAt(d: seq<Byte>, front: nat, j: int)
    requires 2 <= |d| && front < |d| && 1 <= j < |d|
    ensures RecentOf(d, front)[|d| - 1 - j] == d[WrapAt(|d|, front - j)]
  {
  }

  lemma PutInRecent(d: seq<Byte>, e: seq<Byte>, front: nat, p: seq<Byte>)
    requires 2 <= |d| && front < |d| && |p| < |d| && PutIn(d, e, front, p)
    ensures RecentOf(e, WrapAt(|d|, front + |p|)) == (RecentOf(d, front) + p)[|p|..]
  {
    var r, r' := RecentOf(d, front), RecentOf(e, WrapAt(|d|, front + |p|));
    forall k | 0 <= k < |d| - 1
      ensures r'[k] == (r + p)[|p| + k]
    {
      var j := |p| + k - (|d| - 1);
      if j >= 0 { assert p[j] == e[WrapAt(|d|, front + j)]; }
    }
  }

  /** The two sequences end with the same k bytes. */
  predicate SameTail(a: seq<Byte>, b: seq<Byte>, k: nat)
    requires k <= |a| && k <= |b|
  {
    a[|a| - k..] == b[|b| - k..]
  }

  lemma SameTailExtends(a: seq<Byte>, b: seq<Byte>, k: nat, p: seq<Byte>, k': nat)
    requires k <= |a| && k <= |b| && SameTail(a, b, k) && k' <= k + |p|
    ensures SameTail(a + p, b + p, k')
  {
    var x, y := (a + p)[|a| + |p| - k'..], (b + p)[|b| + |p| - k'..];
    forall i | 0 <= i < k'
      ensures x[i] == y[i]
    {
      if k' - i > |p| { assert a[|a| - k..][k + |p| - k' + i] == b[|b| - k..][k + |p| - k' + i]; }
    }
  }

  lemma SameTailDrop(a: seq<Byte>, b: seq<Byte>, n: nat, k: nat)
    requires k <= |a| && n <= |b| && k <= |b| - n && SameTail(a, b, k)
    ensures SameTail(a, b[n..], k)
  {
  }

  lemma SameTailAt(a: seq<Byte>, b: seq<Byte>, k: nat, j: nat)
    requires k <= |a| && k <= |b| && SameTail(a, b, k) && 1 <= j <= k
    ensures a[|a| - j] == b[|b| - j]
  {
    assert a[|a| - k..][k - j] == b[|b| - k..][k - j];
  }

  /** A circular buffer; one slot stays free, so front == rear means empty. */
  class Buffer {
    const data: array<Byte>
    var front: nat
    var rear: nat

    ghost predicate Valid()
      reads this
    {
      data.Length >= 2 && front < data.Length && rear < data.Length
    }

    /** The last Cap() bytes written, oldest first. */
    ghost function Recent(): (s: seq<Byte>)
      requires Valid()
      reads this, data
      ensures |s| == Cap()
    {
      RecentOf(data[..], front)
    }

    /** The bytes written and not yet read. */
    ghost function Contents(): (s: seq<Byte>)
      requires Valid()
      reads this, data
      ensures |s| == Buffered()
    {
      RingSlice(data[..], rear, Buffered())
    }

    constructor (size: nat)
      requires size >= 1
      ensures Valid() && fresh(data) && data.Length == size + 1
      ensures front == rear == 0 && Contents() == []
    {
      data := new Byte[size + 1](_ => 0);
      front, rear := 0, 0;
    }

    function Cap(): nat
      requires Valid()
      reads this
    {
      data.Length - 1
    }

    function Buffered(): (n: nat)
      requires Valid()
      reads this
      ensures n <= Cap()
    {
      var delta := front - rear;
      if delta < 0 then delta + data.Length else delta
    }

    function Available(): (n: nat)
      requires Valid()
      reads this
      ensures n == Cap() - Buffered()
    {
      var delta := rear - 1 - front;
      if delta < 0 then delta + data.Length else delta
    }

    function AddIndex(i: nat, n: nat): (r: nat)
      requires i < data.Length && n <= data.Length
      ensures r == WrapAt(data.Length, i + n) && r < data.Length
    {
      var j := i + n - data.Length;
      if j < 0 then j + data.Length else j
    }

    /** Copies up to `k` bytes without consuming them. */
    method Peek(k: nat) returns (p: seq<Byte>)
      requires Valid()
      ensures p == Contents()[..if k <= Buffered() then k else Buffered()]
    {
      var n := if Buffered() < k then Buffered() else k;
      if rear + n <= data.Length {
        p := data[rear..rear + n];
      } else {
        p := data[rear..] + data[..n - (data.Length - rear)];
      }
      assert p == RingSlice(data[..], rear, n);
    }

    method Read(k: nat) returns (p: seq<Byte>)
      requires Valid()
      modifies this`rear
      ensures Valid() && front == old(front)
      ensures var n := if k <= old(Buffered()) then k else old(Buffered());
              p == old(Contents())[..n] && Contents() == old(Contents())[n..]
      ensures Recent() == old(Recent())
    {
      p := Peek(k);
      RingSliceConcat(data[..], rear, |p|, Buffered() - |p|);
      rear := AddIndex(rear, |p|);
    }

    /** Appends as much of `p` as fits; `full` reports that some of it did not. */
    method Write(p: seq<Byte>) returns (n: nat, full: bool)
      requires Valid()
      modifies this`front, data
      ensures Valid()
      ensures n == (if |p| <= old(Available()) then |p| else old(Available())) && full == (n < |p|)
      ensures front == WrapAt(data.Length, old(front) + n)
      ensures Contents() == old(Contents()) + p[..n]
      ensures Recent() == (old(Recent()) + p[..n])[n..]
    {
      hide RingSlice, RecentOf, PutIn;
      n := if Available() < |p| then Available() else |p|;
      full := n < |p|;
      var k := CopyIn(p[..n]);
      PutInContents(old(data[..]), data[..], rear, Buffered(), p[..n]);
      PutInRecent(old(data[..]), data[..], front, p[..n]);
      front := AddIndex(front, n);
    }

    /** The two copies of a write: up to the end of the array, then on from its start. */
    method CopyIn(p: seq<Byte>) returns (k: nat)
      requires Valid() && |p| <= Available()
      modifies data
      ensures front == old(front) && PutIn(old(data[..]), data[..], front, p)
    {
      k := if |p| <= data.Length - front then |p| else data.Length - front;
      forall i | 0 <= i < k {
        data[front + i] := p[i];
      }
      if k < |p| {
        forall i | 0 <= i < |p| - k {
          data[i] := p[k + i];
        }
      }
    }

    method WriteByte(c: Byte) returns (full: bool)
      requires Valid()
      modifies this`front, data
      ensures Valid()
      ensures full == (old(Available()) < 1)
      ensures Contents() == if full then old(Contents()) else old(Contents()) + [c]
      ensures Recent() == if full then old(Recent()) else (old(Recent()) + [c])[1..]
    {
      hide RingSlice, RecentOf;
      if Available() < 1 {
        return true;
      }
      data[front] := c;
      PutInContents(old(data[..]), data[..], rear, Buffered(), [c]);
      PutInRecent(old(data[..]), data[..], front, [c]);
      front := AddIndex(front, 1);
      return false;
    }

    /** Length of the common prefix of `p` and the bytes that start `distance` before the read position, up to the end of the ring. */
    method MatchLen(distance: nat, p: seq<Byte>) returns (n: nat)
      requires Valid() && distance < data.Length && |p| < data.Length
      ensures n <= |p|
      ensures forall k :: 0 <= k < n ==> p[k] == data[WrapAt(data.Length, rear - distance + k)]
      ensures rear >= distance ==> rear - distance + n <= data.Length
      ensures n < |p| ==> (rear >= distance && rear - distance + n == data.Length) || p[n] != data[WrapAt(data.Length, rear - distance + n)]
    {
      var i: int := rear - distance;
      n := 0;
      var q := p;
      if i < 0 {
        n := PrefixLen(q, data[data.Length + i..]);
        if n < -i {
          return;
        }
        q := q[n..];
        i := 0;
      }
      var m := PrefixLen(q, data[i..]);
      n := n + m;
    }
  }

  /** The length of the longest common prefix. */
  method PrefixLen(a: seq<Byte>, b: seq<Byte>) returns (n: nat)
    ensures n <= |a| && n <= |b|
    ensures a[..n] == b[..n]
    ensures n < |a| && n < |b| ==> a[n] != b[n]
  {
    var x, y := a, b;
    if |x| > |y| {
      x, y := y, x;
    }
    for i := 0 to |x|
      invariant x[..i] == y[..i]
    {
      if y[i] != x[i] {
        return i;
      }
    }
    return |x|;
  }

  // ----- the decoder's dictionary -----

  /** Copying a stretch no longer than the distance is copying a slice. */
  lemma {:induction false} CopyChunk(h: seq<Byte>, d: nat, n: nat, m: nat)
    requires 1 <= d <= |h| && m <= d && m <= n
    ensures OpSpec.CopyBack(h, d, n) == OpSpec.CopyBack(h + h[|h| - d..|h| - d + m], d, n - m)
    decreases m
  {
    hide OpSpec.CopyBack;
    if m == 0 {
      assert h + h[|h| - d..|h| - d] == h;
    } else {
      var h' := h + [h[|h| - d]];
      CopyChunk1(h, d, n, m);
      var s := h[|h| - d..|h| - d + m];
      assert h'[|h'| - d..|h'| - d + (m - 1)] == s[1..];
      assert h' + s[1..] == h + s;
      CopyChunk(h', d, n - 1, m - 1);
    }
  }

  lemma Associative(a: seq<Byte>, b: seq<Byte>, c: seq<Byte>)
    ensures (a + b) + c == a + (b + c)
  {
  }

  lemma CopyChunk1(h: seq<Byte>, d: nat, n: nat, m: nat)
    requires 1 <= d <= |h| && 1 <= m <= d && m <= n
    ensures OpSpec.CopyBack(h, d, n) == OpSpec.CopyBack(h + [h[|h| - d]], d, n - 1)
  {
  }

  /** A ring that ends like the history still does after both take the same bytes. */
  lemma SameTailGrows(hist: seq<Byte>, recent: seq<Byte>, p: seq<Byte>)
    requires SameTail(hist, recent, OpSpec.DictLen(hist, |recent|)) && |p| <= |recent|
    ensures SameTail(hist + p, (recent + p)[|p|..], OpSpec.DictLen(hist + p, |recent|))
  {
    hide SameTail;
    var k := OpSpec.DictLen(hist + p, |recent|);
    SameTailExtends(hist, recent, OpSpec.DictLen(hist, |recent|), p, k);
    SameTailDrop(hist + p, recent + p, |p|, k);
  }

  class DecoderDict {
    const buf: Buffer
    var head: nat
    /** Everything written since the last reset. */
    ghost var hist: seq<Byte>

    ghost predicate Valid()
      reads this, buf, buf.data
    {
      RingOk() && head == |hist|
    }

    /** The ring holds the last bytes of the history. */
    ghost predicate RingOk()
      reads this, buf, buf.data
    {
      buf.Valid() && SameTail(hist, buf.Recent(), OpSpec.DictLen(hist, buf.Cap()))
    }

    constructor (dictCap: nat)
      requires 1 <= dictCap <= EOS_DIST
      ensures Valid() && fresh(buf) && fresh(buf.data)
      ensures hist == [] && buf.Contents() == [] && buf.Cap() == dictCap
    {
      hide RingSlice, RecentOf;
      buf := new Buffer(dictCap);
      head, hist := 0, [];
    }

    /** Forget the history; unread bytes stay readable. */
    method Reset()
      requires Valid()
      modifies this
      ensures Valid() && hist == []
    {
      hide RingSlice, RecentOf;
      head := 0;
      hist := [];
    }

    function DictLen(): (n: nat)
      requires Valid()
      reads this, buf, buf.data
      ensures n == OpSpec.DictLen(hist, buf.Cap())
    {
      if head >= buf.Cap() then buf.Cap() else head
    }

    method ByteAt(dist: nat) returns (c: Byte)
      requires Valid()
      ensures c == OpSpec.ByteAt(hist, buf.Cap(), dist)
    {
      hide RingSlice, RecentOf, SameTail;
      if !(0 < dist <= DictLen()) {
        return 0;
      }
      RingIsHistory(dist);
      var i: int := buf.front - dist;
      if i < 0 {
        i := i + buf.data.Length;
      }
      return buf.data[i];
    }

    /** The slot `dist` behind the front holds the byte `dist` back in the history. */
    lemma RingIsHistory(dist: nat)
      requires RingOk() && 1 <= dist <= OpSpec.DictLen(hist, buf.Cap())
      ensures buf.data[WrapAt(buf.data.Length, buf.front - dist)] == hist[|hist| - dist]
    {
      hide RingSlice, RecentOf, SameTail;
      SameTailAt(hist, buf.Recent(), OpSpec.DictLen(hist, buf.Cap()), dist);
      RecentAt(buf.data[..], buf.front, dist);
    }

    method WriteByte(c: Byte) returns (err: Option<Error>)
      requires Valid()
      modifies this, buf, buf.data
      ensures Valid()
      ensures err == if old(buf.Available()) < 1 then Some(NoSpace) else None
      ensures err == None ==> hist == old(hist) + [c] && buf.Contents() == old(buf.Contents()) + [c]
      ensures err != None ==> hist == old(hist) && buf.Contents() == old(buf.Contents())
      ensures buf.rear == old(buf.rear)
    {
      hide RingSlice, RecentOf, SameTail;
      SameTailGrows(hist, buf.Recent(), [c]);
      var full := buf.WriteByte(c);
      if full {
        return Some(NoSpace);
      }
      head := head + 1;
      hist := hist + [c];
      return None;
    }

    /** Puts bytes that fit into the ring; the head is the caller's business. */
    method Append(p: seq<Byte>)
      requires RingOk() && |p| <= buf.Available()
      modifies `hist, buf, buf.data
      ensures RingOk() && hist == old(hist) + p
      ensures buf.Contents() == old(buf.Contents()) + p
      ensures buf.front == WrapAt(buf.data.Length, old(buf.front) + |p|) && buf.rear == old(buf.rear)
    {
      hide RingSlice, RecentOf, SameTail;
      SameTailGrows(hist, buf.Recent(), p);
      var n, full := buf.Write(p);
      assert p[..n] == p;
      hist := hist + p;
    }

    /** Appends bytes that do not come from the history. */
    method Write(p: seq<Byte>) returns (n: nat)
      requires Valid()
      modifies this, buf, buf.data
      ensures Valid()
      ensures n == if |p| <= old(buf.Available()) then |p| else old(buf.Available())
      ensures hist == old(hist) + p[..n] && buf.Contents() == old(buf.Contents()) + p[..n]
      ensures buf.rear == old(buf.rear)
    {
      hide RingSlice, RecentOf, SameTail;
      var full;
      SameTailGrows(hist, buf.Recent(), p[..if |p| <= buf.Available() then |p| else buf.Available()]);
      n, full := buf.Write(p);
      head := head + n;
      hist := hist + p[..n];
    }

    /** The wrapping, self-overlapping copy: chunk by chunk it appends what the byte-wise LZ77 copy appends. */
    method WriteMatch(dist: nat, length: nat) returns (err: Option<Error>)
      requires Valid()
      modifies this, buf, buf.data
      ensures Valid()
      ensures err == if !(0 < dist <= OpSpec.DictLen(old(hist), buf.Cap())) then Some(DistanceOutOfRange)
                     else if !(0 < length <= MAX_MATCH_LEN) then Some(LengthOutOfRange)
                     else if length > old(buf.Available()) then Some(NoSpace)
                     else None
      ensures err == None ==> hist == OpSpec.CopyBack(old(hist), dist, length)
      ensures err == None ==> buf.Contents() == old(buf.Contents()) + hist[|old(hist)|..]
      ensures err != None ==> hist == old(hist) && buf.Contents() == old(buf.Contents())
      ensures buf.rear == old(buf.rear)
    {
      hide RingSlice, RecentOf, SameTail, WrapAt, OpSpec.CopyBack;
      if !(0 < dist <= DictLen()) {
        return Some(DistanceOutOfRange);
      }
      if !(0 < length <= MAX_MATCH_LEN) {
        return Some(LengthOutOfRange);
      }
      if length > buf.Available() {
        return Some(NoSpace);
      }
      head := head + length;
      var i: int := buf.front - dist;
      if i < 0 {
        i := i + buf.data.Length;
      }
      WrapBack(buf.data.Length, buf.front, dist);
      var left := length;
      ghost var added: seq<Byte> := [];
      while left > 0
        invariant RingOk()
        invariant 0 <= left <= length && left <= buf.Available()
        invariant buf.rear == old(buf.rear) && head == |old(hist)| + length
        invariant dist <= OpSpec.DictLen(hist, buf.Cap())
        invariant left > 0 ==> i == WrapAt(buf.data.Length, buf.front - dist)
        invariant hist == old(hist) + added && |added| + left == length
        invariant OpSpec.CopyBack(hist, dist, left) == OpSpec.CopyBack(old(hist), dist, length)
        invariant buf.Contents() == old(buf.Contents()) + added
      {
        var p;
        p, i := CopyStep(i, dist, left);
        left := left - |p|;
        Associative(old(hist), added, p);
        Associative(old(buf.Contents()), added, p);
        added := added + p;
      }
      CopiedTail(old(hist), added);
      return None;
    }

    lemma CopiedTail(h: seq<Byte>, added: seq<Byte>)
      ensures (h + added)[|h|..] == added
    {
    }

    /** One stretch of the copy. */
    method CopyStep(i: int, dist: nat, left: nat) returns (p: seq<Byte>, next: int)
      requires RingOk() && 1 <= dist <= OpSpec.DictLen(hist, buf.Cap()) && 0 < left <= buf.Available()
      requires i == WrapAt(buf.data.Length, buf.front - dist)
      modifies `hist, buf, buf.data
      ensures RingOk() && buf.rear == old(buf.rear)
      ensures 1 <= |p| <= left && hist == old(hist) + p
      ensures left - |p| <= buf.Available()
      ensures OpSpec.CopyBack(hist, dist, left - |p|) == OpSpec.CopyBack(old(hist), dist, left)
      ensures buf.Contents() == old(buf.Contents()) + p
      ensures |p| < left ==> next == WrapAt(buf.data.Length, buf.front - dist)
    {
      hide RingSlice, RecentOf, SameTail, WrapAt, OpSpec.CopyBack;
      p, next := NextChunk(i, dist, left);
      CopyChunk(hist, dist, left, |p|);
      Append(p);
    }

    /** The stretch from the copy position to the front or to the end of the array, and where the copy goes on. */
    method NextChunk(i: int, dist: nat, left: nat) returns (p: seq<Byte>, next: int)
      requires RingOk() && 1 <= dist <= OpSpec.DictLen(hist, buf.Cap()) && left > 0
      requires i == WrapAt(buf.data.Length, buf.front - dist)
      ensures 1 <= |p| <= left && |p| <= dist
      ensures p == hist[|hist| - dist..|hist| - dist + |p|]
      ensures |p| < left ==> next == WrapAt(buf.data.Length, WrapAt(buf.data.Length, buf.front + |p|) - dist)
    {
      hide RingSlice, RecentOf, SameTail;
      if i >= buf.front {
        p := buf.data[i..];
        next := 0;
      } else {
        p := buf.data[i..buf.front];
        next := buf.front;
      }
      if |p| > left {
        p := p[..left];
      }
      SliceIsHistory(dist, p);
    }

    /** A slice of the ring that starts `dist` behind the front is a slice of the history. */
    lemma SliceIsHistory(dist: nat, p: seq<Byte>)
      requires RingOk() && 1 <= dist <= OpSpec.DictLen(hist, buf.Cap()) && |p| <= dist
      requires forall k :: 0 <= k < |p| ==> p[k] == buf.data[WrapAt(buf.data.Length, buf.front - dist + k)]
      ensures p == hist[|hist| - dist..|hist| - dist + |p|]
    {
      hide RingSlice, RecentOf, SameTail;
      forall k | 0 <= k < |p|
        ensures p[k] == hist[|hist| - dist + k]
      {
        RingIsHistory(dist - k);
      }
    }

    method Read(k: nat) returns (p: seq<Byte>)
      requires Valid()
      modifies buf`rear
      ensures Valid()
      ensures var n := if k <= old(buf.Buffered()) then k else old(buf.Buffered());
              p == old(buf.Contents())[..n] && buf.Contents() == old(buf.Contents())[n..]
      ensures hist == old(hist)
    {
      p := buf.Read(k);
    }
  }

  // ----- the encoder's dictionary -----

  class EncoderDict {
    const buf: Buffer
    const capacity: nat
    var head: nat
    /** Everything written; the first `head` bytes are encoded, the rest is lookahead. */
    ghost var all: seq<Byte>

    ghost predicate Valid()
      reads this, buf, buf.data
    {
      && buf.Valid()
      && 1 <= capacity <= EOS_DIST
      && head + buf.Buffered() == |all|
      && buf.Contents() == all[head..]
      && SameTail(all, buf.Recent(), OpSpec.DictLen(all, buf.Cap()))
      && (if head < capacity then head else capacity) <= buf.Available()
    }

    ghost function Hist(): (h: seq<Byte>)
      requires Valid()
      reads this, buf, buf.data
      ensures |h| == head && h == all[..head]
    {
      all[..head]
    }

    lemma Facts()
      requires Valid()
      ensures head + buf.Buffered() == |all| && 1 <= capacity <= EOS_DIST && buf.Valid()
      ensures (if head < capacity then head else capacity) <= buf.Available()
    {
    }

    constructor (dictCap: nat, bufSize: nat)
      requires 1 <= dictCap <= EOS_DIST && 1 <= bufSize
      ensures Valid() && fresh(buf) && fresh(buf.data)
      ensures all == [] && capacity == dictCap && buf.Cap() == dictCap + bufSize
    {
      hide RingSlice, RecentOf;
      buf := new Buffer(dictCap + bufSize);
      capacity := dictCap;
      head, all := 0, [];
    }

    /** The next bytes to encode, at most `k`. */
    method Lookahead(k: nat) returns (p: seq<Byte>)
      requires Valid()
      ensures |p| == (if k <= buf.Buffered() then k else buf.Buffered())
      ensures head + |p| <= |all| && p == all[head..head + |p|]
    {
      hide RingSlice, RecentOf, SameTail;
      p := buf.Peek(k);
    }

    /** The bytes behind the head that the ring still holds. */
    function Len(): (n: nat)
      requires Valid()
      reads this, buf, buf.data
      ensures n <= head && n + buf.Buffered() <= buf.Cap() && DictLen() <= n
    {
      if buf.Available() > head then head else buf.Available()
    }

    function DictLen(): (n: nat)
      requires Valid()
      reads this, buf, buf.data
      ensures n == OpSpec.DictLen(Hist(), capacity)
    {
      if head < capacity then head else capacity
    }

    function Available(): nat
      requires Valid()
      reads this, buf, buf.data
    {
      buf.Available() - DictLen()
    }

    /** The slots around the read position, behind it up to Len() and ahead of it, hold the input. */
    lemma RingIsInput(i: int)
      requires Valid() && 0 <= i + Len() && i < buf.Buffered()
      ensures buf.data[WrapAt(buf.data.Length, buf.rear + i)] == all[head + i]
    {
      hide RingSlice, RecentOf, SameTail;
      var j := buf.Buffered() - i;
      assert WrapAt(buf.data.Length, buf.rear + i) == WrapAt(buf.data.Length, buf.front - j);
      SameTailAt(all, buf.Recent(), OpSpec.DictLen(all, buf.Cap()), j);
      RecentAt(buf.data[..], buf.front, j);
    }

    /** Appends input that fits; the head does not move. */
    method Write(p: seq<Byte>) returns (n: nat, err: Option<Error>)
      requires Valid()
      modifies this, buf, buf.data
      ensures Valid() && head == old(head)
      ensures n == (if |p| > old(Available()) then old(Available()) else |p|)
      ensures err == if |p| > old(Available()) then Some(NoSpace) else None
      ensures all == old(all) + p[..n]
    {
      hide RingSlice, RecentOf, SameTail;
      var m := Available();
      var q := p;
      if |p| > m {
        q := p[..m];
        err := Some(NoSpace);
      } else {
        err := None;
      }
      SameTailGrows(all, buf.Recent(), q);
      var full;
      n, full := buf.Write(q);
      assert q[..n] == q == p[..n];
      all := all + q;
      assert all[head..] == old(all)[head..] + q;
    }

    /** Moves the head over `n` bytes and hands them to the caller, who feeds them to the matcher. */
    method Discard(n: nat) returns (p: seq<Byte>)
      requires Valid() && n <= buf.Buffered()
      modifies this, buf`rear
      ensures Valid() && all == old(all) && head == old(head) + n
      ensures p == all[old(head)..head]
    {
      hide RingSlice, RecentOf, SameTail;
      p := buf.Read(n);
      head := head + n;
    }

    method ByteAt(distance: nat) returns (c: Byte)
      requires Valid()
      ensures c == if 0 < distance <= Len() then all[head - distance] else 0
      ensures distance <= OpSpec.DictLen(Hist(), capacity) || distance > head ==> c == OpSpec.ByteAt(Hist(), capacity, distance)
    {
      hide RingSlice, RecentOf, SameTail;
      if !(0 < distance <= Len()) {
        return 0;
      }
      var d: int := distance;
      RingIsInput(-d);
      var i: int := buf.rear - distance;
      if i < 0 {
        i := i + buf.data.Length;
      }
      return buf.data[i];
    }

    /** The last `n` encoded bytes, as an uncompressed chunk stores them. */
    method CopyN(n: nat) returns (p: seq<Byte>, err: Option<Error>)
      requires Valid()
      ensures var m := if n > Len() then Len() else n;
              p == all[head - m..head] && err == if n > Len() then Some(NoSpace) else None
    {
      hide RingSlice, RecentOf, SameTail;
      if n == 0 {
        return [], None;
      }
      var m := n;
      err := None;
      if n > Len() {
        m := Len();
        err := Some(NoSpace);
      }
      var i: int := buf.rear - m;
      if i < 0 {
        i := i + buf.data.Length;
        p := buf.data[i..] + buf.data[..buf.rear];
      } else {
        p := buf.data[i..buf.rear];
      }
      forall k | 0 <= k < m
        ensures p[k] == all[head - m + k]
      {
        RingIsInput(k - m);
      }
    }

    /** A common prefix found in the ring is a repetition in the input. */
    method MatchLen(distance: nat, p: seq<Byte>) returns (n: nat)
      requires Valid() && distance <= Len()
      requires |p| <= buf.Buffered() && p == all[head..head + |p|]
      ensures n <= |p|
      ensures distance >= 1 ==> Repeats(all, head, distance, n)
      ensures buf.rear >= distance ==> buf.rear - distance + n <= buf.data.Length
      ensures distance >= 1 && n < |p| ==> (buf.rear >= distance && buf.rear - distance + n == buf.data.Length) || all[head + n] != all[head + n - distance]
    {
      hide RingSlice, RecentOf, SameTail;
      n := buf.MatchLen(distance, p);
      if distance >= 1 {
        if n < |p| { RingIsInput(n - distance); }
        forall i | head <= i < head + n
          ensures all[i] == all[i - distance]
        {
          RingIsInput(i - head - distance);
          assert p[i - head] == all[i];
        }
      }
    }
  }

  /** Each of the `n` bytes from `head` on repeats the byte `d` before it. */
  predicate Repeats(all: seq<Byte>, head: nat, d: nat, n: nat)
  {
    1 <= d <= head && head + n <= |all| && forall i :: head <= i < head + n ==> all[i] == all[i - d]
  }

  /** A repetition in the input is what the LZ77 copy produces. */
  lemma {:induction false} RepetitionIsCopy(all: seq<Byte>, head: nat, d: nat, n: nat)
    requires Repeats(all, head, d, n)
    ensures OpSpec.CopyBack(all[..head], d, n) == all[..head + n]
    decreases n
  {
    if n > 0 {
      assert all[..head] + [all[head - d]] == all[..head + 1];
      RepetitionIsCopy(all, head + 1, d, n - 1);
    }
  }
}
