/** The addresses of the adaptive probabilities an LZMA state owns. */
module Cells {
  datatype Tree =
    | LenLow(rep: bool, posState: nat)
    | LenMid(rep: bool, posState: nat)
    | LenHigh(rep: bool)
    | PosSlot(lenState: nat)
    | PosModel(i: nat)
    | Align

  datatype Cell =
    | IsMatch(i: nat)
    | IsRep(i: nat)
    | IsRepG0(i: nat)
    | IsRepG1(i: nat)
    | IsRepG2(i: nat)
    | IsRepG0Long(i: nat)
    | Choice(rep: bool, i: nat)
    | Node(t: Tree, i: nat)
    | Lit(litState: nat, i: nat)

  /** A cell that was never touched holds probInit; Reset forgets every cell. */
  type Probs = map<Cell, int>

  const PROB_INIT: int := 1024

  function Get(p: Probs, c: Cell): int
  {
    if c in p then p[c] else PROB_INIT
  }

  predicate ProbOk(v: int) { 31 <= v <= 2017 }

  ghost predicate ProbsOk(p: Probs) { forall c :: c in p ==> ProbOk(p[c]) }
}

/**
 The binary range coder as functions: what every step of the encoder and of the
 decoder computes, and the proof that the decoder undoes the encoder.
 */
module RangeSpec {
  import opened Bits
  import opened Cells
  import opened Results

  // ----- probabilities -----

  function Inc(p: int): int { p + (2048 - p) / 32 }

  function Dec(p: int): int { p - p / 32 }

  function Adapt(p: int, b: Bit): int { if b == 0 then Inc(p) else Dec(p) }

  function Bound(nrange: nat, p: int): int { (nrange / 2048) * p }

  lemma AdaptOk(p: int, b: Bit)
    requires ProbOk(p)
    ensures ProbOk(Adapt(p, b))
  {
  }

  /** Both halves of a split keep at least 2^16 of a normalised range. */
  lemma BoundSplits(nrange: nat, p: int)
    requires nrange >= TWO24 && ProbOk(p)
    ensures 0x1_0000 <= Bound(nrange, p) && Bound(nrange, p) + 0x1_0000 <= nrange
  {
    var q := nrange / 2048;
    assert q * 31 <= q * p <= q * 2017;
  }

  // ----- encoder -----

  datatype Encoder = Encoder(low: nat, nrange: nat, cache: Byte, cacheLen: nat, out: seq<Byte>)

  const ENCODER_START: Encoder := Encoder(0, 0xffff_ffff, 0, 1, [])

  function ShiftLow(e: Encoder): (e': Encoder)
    requires e.cacheLen >= 1
    ensures e'.cacheLen >= 1
  {
    var carry := e.low / TWO32;
    var low32 := e.low % TWO32;
    if low32 < 0xff00_0000 || carry != 0 then
      Encoder((e.low % TWO24) * 256, e.nrange, low32 / TWO24, 1,
              e.out + [(e.cache + carry) % 256] + Fill((0xff + carry) % 256, e.cacheLen - 1))
    else
      Encoder((e.low % TWO24) * 256, e.nrange, e.cache, e.cacheLen + 1, e.out)
  }

  /** Take the part [off, off + nrange) of the current interval and renormalise once. */
  function Narrow(e: Encoder, off: nat, nrange: nat): (e': Encoder)
    requires e.cacheLen >= 1
    ensures e'.cacheLen >= 1
  {
    if nrange >= TWO24 then e.(low := e.low + off, nrange := nrange)
    else ShiftLow(e.(low := e.low + off, nrange := nrange * 256))
  }

  function ShiftTimes(e: Encoder, n: nat): Encoder
    requires e.cacheLen >= 1
    decreases n
  {
    if n == 0 then e else ShiftTimes(ShiftLow(e), n - 1)
  }

  function Close(e: Encoder): seq<Byte>
    requires e.cacheLen >= 1
  {
    ShiftTimes(e, 5).out
  }

  // ----- what an encoder state denotes -----

  function Digits(e: Encoder): seq<Byte>
    requires e.cacheLen >= 1
  {
    e.out + [e.cache] + Fill(255, e.cacheLen - 1)
  }

  /** The exact start of the current interval. */
  function Value(e: Encoder): nat
    requires e.cacheLen >= 1
  {
    Big(Digits(e)) * TWO32 + e.low
  }

  function Len(e: Encoder): nat { |e.out| + e.cacheLen }

  /** `r` is the width of the interval that starts at Value(e). */
  predicate EncoderOk(e: Encoder, r: nat)
  {
    && e.cacheLen >= 1
    && r > 0
    && e.low + r <= 2 * TWO32
    && (e.cache == 255 || e.out == [] ==> e.low + r <= TWO32)
    && (if e.out == [] then e.cache == 0 else e.out[0] == 0)
  }

  predicate Normal(e: Encoder) { EncoderOk(e, e.nrange) && TWO24 <= e.nrange < TWO32 }

  /** The shift appends the top byte of low, carry included, to the number the digits denote. */
  lemma ShiftLowDigits(e: Encoder)
    requires e.cacheLen >= 1 && e.low < 2 * TWO32
    requires e.low >= TWO32 ==> e.cache < 255
    ensures Big(Digits(ShiftLow(e))) == Big(Digits(e)) * 256 + e.low / TWO24
  {
    var top := (e.low % TWO32) / TWO24;
    var e' := ShiftLow(e);
    if e.low >= TWO32 {
      var bumped := e.out + [e.cache + 1] + Fill(0, e.cacheLen - 1);
      BigCarry(e.out, e.cache, e.cacheLen - 1);
      assert e'.out == bumped;
      assert Digits(e') == bumped + [top];
      BigSnoc(bumped, top);
    } else if e.low < 0xff00_0000 {
      assert Digits(e') == Digits(e) + [top];
      BigSnoc(Digits(e), top);
    } else {
      FillSnoc(255, e.cacheLen - 1);
      assert Digits(e') == Digits(e) + [255];
      BigSnoc(Digits(e), 255);
    }
  }

  lemma ShiftLowOk(e: Encoder, r: nat)
    requires EncoderOk(e, r) && r < TWO24
    ensures e.low >= TWO32 ==> e.cache < 255
    ensures EncoderOk(ShiftLow(e), r * 256)
    ensures Value(ShiftLow(e)) == Value(e) * 256
    ensures Len(ShiftLow(e)) == Len(e) + 1
  {
    ShiftLowDigits(e);
    ShiftValue(Big(Digits(e)), e.low);
  }

  lemma ShiftValue(x: nat, low: nat)
    ensures (x * 256 + low / TWO24) * TWO32 + (low % TWO24) * 256 == (x * TWO32 + low) * 256
  {
  }

  /** Narrowing keeps the invariant, and the new interval lies inside the old one. */
  lemma NarrowOk(e: Encoder, off: nat, nrange: nat)
    requires Normal(e) && off + nrange <= e.nrange && nrange >= 0x1_0000
    ensures Normal(Narrow(e, off, nrange))
    ensures nrange >= TWO24 ==>
              && Narrow(e, off, nrange).nrange == nrange
              && Len(Narrow(e, off, nrange)) == Len(e)
              && Value(Narrow(e, off, nrange)) == Value(e) + off
    ensures nrange < TWO24 ==>
              && Narrow(e, off, nrange).nrange == nrange * 256
              && Len(Narrow(e, off, nrange)) == Len(e) + 1
              && Value(Narrow(e, off, nrange)) == (Value(e) + off) * 256
  {
    if nrange < TWO24 {
      var m := e.(low := e.low + off, nrange := nrange * 256);
      assert Digits(m) == Digits(e);
      ShiftLowOk(m, nrange);
    }
  }

  /** Closing writes the interval start itself, four bytes longer than the digits so far, and a first byte 0. */
  lemma CloseOk(e: Encoder, r: nat)
    requires EncoderOk(e, r)
    ensures |Close(e)| == Len(e) + 4
    ensures Big(Close(e)) == Value(e)
    ensures Close(e)[0] == 0
  {
    ShiftLowNarrow(e, r);
    var e1 := ShiftLow(e);
    ShiftLowNarrow(e1, 1);
    var e2 := ShiftLow(e1);
    ShiftLowNarrow(e2, 1);
    var e3 := ShiftLow(e2);
    ShiftLowNarrow(e3, 1);
    var e4 := ShiftLow(e3);
    ShiftFourTimes(e.low);
    CloseLast(e4);
    assert Close(e) == ShiftTimes(e1, 4).out == ShiftTimes(e2, 3).out == ShiftTimes(e3, 2).out;
  }

  lemma CloseLast(e: Encoder)
    requires EncoderOk(e, 1) && e.low == 0
    ensures var out := ShiftLow(e).out;
            && |out| == Len(e)
            && Big(out) == Big(Digits(e))
            && ShiftTimes(e, 1).out == out
            && out[0] == 0
  {
    var e5 := ShiftLow(e);
    ShiftLowNarrow(e, 1);
    assert e5.cache == 0 && e5.cacheLen == 1;
    assert Digits(e5) == e5.out + [0];
    BigSnoc(e5.out, 0);
    assert ShiftTimes(e, 1) == ShiftTimes(e5, 0);
  }

  /** Close shifts the point Value(e) itself: an interval of width one. */
  lemma ShiftLowNarrow(e: Encoder, r: nat)
    requires EncoderOk(e, r)
    ensures EncoderOk(ShiftLow(e), 1)
    ensures Value(ShiftLow(e)) == Value(e) * 256
    ensures Len(ShiftLow(e)) == Len(e) + 1
  {
    ShiftLowOk(e, 1);
  }

  lemma ShiftFourTimes(low: nat)
    ensures var l1 := (low % TWO24) * 256;
            var l2 := (l1 % TWO24) * 256;
            var l3 := (l2 % TWO24) * 256;
            (l3 % TWO24) * 256 == 0
  {
    var l1 := (low % TWO24) * 256;
    var l2 := (l1 % TWO24) * 256;
    assert l2 % 0x1_0000 == 0;
    var l3 := (l2 % TWO24) * 256;
    assert l3 % TWO24 == 0;
  }

  // ----- coding a list of bits -----

  /** One coded bit: with the adaptive probability in cell `c`, or with probability 1/2. */
  datatype Event = Model(c: Cell, b: Bit) | Direct(b: Bit)

  datatype Writer = Writer(e: Encoder, p: Probs)

  function EventOffset(w: Writer, ev: Event): nat
    requires ProbsOk(w.p)
  {
    match ev
    case Model(c, b) => if b == 0 then 0 else Bound(w.e.nrange, Get(w.p, c))
    case Direct(b) => b * (w.e.nrange / 2)
  }

  function EventRange(w: Writer, ev: Event): int
  {
    match ev
    case Model(c, b) =>
      var bound := Bound(w.e.nrange, Get(w.p, c));
      if b == 0 then bound else w.e.nrange - bound
    case Direct(b) => w.e.nrange / 2
  }

  function AdaptCell(p: Probs, ev: Event): Probs
  {
    match ev
    case Model(c, b) => p[c := Adapt(Get(p, c), b)]
    case Direct(_) => p
  }

  ghost predicate WriterOk(w: Writer) { Normal(w.e) && ProbsOk(w.p) }

  lemma EventSplits(w: Writer, ev: Event)
    requires WriterOk(w)
    ensures EventRange(w, ev) >= 0x1_0000
    ensures EventOffset(w, ev) + EventRange(w, ev) <= w.e.nrange
    ensures ProbsOk(AdaptCell(w.p, ev))
  {
    match ev
    case Model(c, b) =>
      BoundSplits(w.e.nrange, Get(w.p, c));
      AdaptOk(Get(w.p, c), b);
    case Direct(b) =>
  }

  function Write(w: Writer, ev: Event): (w': Writer)
    requires WriterOk(w)
    ensures WriterOk(w')
  {
    EventSplits(w, ev);
    NarrowOk(w.e, EventOffset(w, ev), EventRange(w, ev));
    Writer(Narrow(w.e, EventOffset(w, ev), EventRange(w, ev)), AdaptCell(w.p, ev))
  }

  function WriteAll(w: Writer, evs: seq<Event>): (w': Writer)
    requires WriterOk(w)
    ensures WriterOk(w')
    decreases |evs|
  {
    if evs == [] then w else WriteAll(Write(w, evs[0]), evs[1..])
  }

  lemma {:induction false} WriteAllConcat(w: Writer, a: seq<Event>, b: seq<Event>)
    requires WriterOk(w)
    ensures WriteAll(w, a + b) == WriteAll(WriteAll(w, a), b)
    decreases |a|
  {
    if a == [] {
      assert a + b == b;
    } else {
      assert (a + b)[0] == a[0] && (a + b)[1..] == a[1..] + b;
      WriteAllConcat(Write(w, a[0]), a[1..], b);
    }
  }

  // ----- decoder -----

  datatype Decoder = Decoder(nrange: nat, code: nat, rest: seq<Byte>)

  function UpdateCode(d: Decoder): Result<Decoder>
  {
    if d.rest == [] then Err(UnexpectedEof)
    else Ok(Decoder(d.nrange, (d.code * 256) % TWO32 + d.rest[0], d.rest[1..]))
  }

  function NormalizeDecoder(d: Decoder): Result<Decoder>
  {
    if d.nrange >= TWO24 then Ok(d) else UpdateCode(d.(nrange := (d.nrange * 256) % TWO32))
  }

  function NewDecoder(input: seq<Byte>): Result<Decoder>
  {
    if input == [] then Err(UnexpectedEof)
    else if input[0] != 0 then Err(FirstByteNotZero)
    else
      var d1 :- UpdateCode(Decoder(0xffff_ffff, 0, input[1..]));
      var d2 :- UpdateCode(d1);
      var d3 :- UpdateCode(d2);
      var d4 :- UpdateCode(d3);
      if d4.code >= d4.nrange then Err(CodeOutOfRange) else Ok(d4)
  }

  function Sub32(a: int, b: int): nat { (a - b) % TWO32 }

  /** DirectDecodeBit before the renormalisation, on 32-bit words. */
  function DirectBit(nrange: nat, code: nat): (Bit, nat)
  {
    var half := nrange / 2;
    var c := Sub32(code, half);
    if c < TWO31 then (1, c) else (0, (c + half) % TWO32)
  }

  datatype Reader = Reader(d: Decoder, p: Probs)

  function DecodeBit(d: Decoder, p: int): Result<(Bit, Decoder)>
  {
    var bound := Bound(d.nrange, p);
    if d.code < bound then
      var d' :- NormalizeDecoder(d.(nrange := bound));
      Ok((0, d'))
    else
      var d' :- NormalizeDecoder(Decoder(Sub32(d.nrange, bound), Sub32(d.code, bound), d.rest));
      Ok((1, d'))
  }

  function DecodeDirectBit(d: Decoder): Result<(Bit, Decoder)>
  {
    var (b, code) := DirectBit(d.nrange, d.code);
    var d' :- NormalizeDecoder(Decoder(d.nrange / 2, code, d.rest));
    Ok((b, d'))
  }

  function ReadModel(r: Reader, c: Cell): Result<(Bit, Reader)>
  {
    var (b, d) :- DecodeBit(r.d, Get(r.p, c));
    Ok((b, Reader(d, r.p[c := Adapt(Get(r.p, c), b)])))
  }

  function ReadDirect(r: Reader): Result<(Bit, Reader)>
  {
    var (b, d) :- DecodeDirectBit(r.d);
    Ok((b, Reader(d, r.p)))
  }

  function Read(r: Reader, ev: Event): Result<(Bit, Reader)>
  {
    if ev.Model? then ReadModel(r, ev.c) else ReadDirect(r)
  }

  /** Asking for the bits of `evs` one by one, in the same cells, answers exactly their values. */
  predicate Follows(r: Reader, evs: seq<Event>)
    decreases |evs|
  {
    evs == [] ||
    (var x := Read(r, evs[0]);
     x.Ok? && x.value.0 == evs[0].b && Follows(x.value.1, evs[1..]))
  }

  function After(r: Reader, evs: seq<Event>): Reader
    requires Follows(r, evs)
    decreases |evs|
  {
    if evs == [] then r else After(Read(r, evs[0]).value.1, evs[1..])
  }

  lemma {:induction false} FollowsConcat(r: Reader, a: seq<Event>, b: seq<Event>)
    ensures Follows(r, a + b) <==> Follows(r, a) && Follows(After(r, a), b)
    ensures Follows(r, a + b) ==> After(r, a + b) == After(After(r, a), b)
    decreases |a|
  {
    if a == [] {
      assert a + b == b;
    } else {
      assert (a + b)[0] == a[0] && (a + b)[1..] == a[1..] + b;
      var x := Read(r, a[0]);
      if x.Ok? { FollowsConcat(x.value.1, a[1..], b); }
    }
  }

  // ----- the decoder undoes the encoder -----

  predicate Inside(e: Encoder, bytes: seq<Byte>)
    requires e.cacheLen >= 1
  {
    Len(e) + 4 <= |bytes| && Value(e) <= Big(bytes[..Len(e) + 4]) < Value(e) + e.nrange
  }

  /** A byte string inside the narrowed interval is inside the part of the old interval that was taken. */
  lemma WriteInside(w: Writer, ev: Event, bytes: seq<Byte>)
    requires WriterOk(w) && Inside(Write(w, ev).e, bytes)
    ensures Inside(w.e, bytes)
    ensures var x := Big(bytes[..Len(w.e) + 4]) - Value(w.e);
            EventOffset(w, ev) <= x < EventOffset(w, ev) + EventRange(w, ev)
  {
    EventSplits(w, ev);
    NarrowOk(w.e, EventOffset(w, ev), EventRange(w, ev));
    if EventRange(w, ev) < TWO24 {
      BigPrefix(bytes, Len(w.e) + 4);
    }
  }

  /** The final bytes denote a number inside the interval of every earlier encoder state. */
  lemma {:induction false} FinalInside(w: Writer, evs: seq<Event>)
    requires WriterOk(w)
    ensures Inside(w.e, Close(WriteAll(w, evs).e))
    decreases |evs|
  {
    var bytes := Close(WriteAll(w, evs).e);
    if evs == [] {
      CloseOk(w.e, w.e.nrange);
      assert bytes[..Len(w.e) + 4] == bytes;
    } else {
      var w' := Write(w, evs[0]);
      FinalInside(w', evs[1..]);
      WriteInside(w, evs[0], bytes);
    }
  }

  /** The decoder stands where encoder state `e` stood: same width, and code is the distance from the interval start. */
  predicate InStep(e: Encoder, d: Decoder, bytes: seq<Byte>)
    requires e.cacheLen >= 1
  {
    && Len(e) + 4 <= |bytes|
    && d.nrange == e.nrange
    && d.code + Value(e) == Big(bytes[..Len(e) + 4])
    && d.rest == bytes[Len(e) + 4..]
  }

  lemma StepInStep(w: Writer, ev: Event, bytes: seq<Byte>, r: Reader)
    requires WriterOk(w) && r.p == w.p
    requires InStep(w.e, r.d, bytes) && Inside(Write(w, ev).e, bytes)
    ensures Read(r, ev).Ok?
    ensures var (b, r') := Read(r, ev).value;
            && b == ev.b
            && r'.p == Write(w, ev).p
            && InStep(Write(w, ev).e, r'.d, bytes)
  {
    hide NormalizeDecoder, Read, EventOffset, EventRange, Bound;
    WriteInside(w, ev, bytes);
    EventSplits(w, ev);
    var off, wid := EventOffset(w, ev), EventRange(w, ev);
    NarrowInStep(w, off, wid, bytes, r.d);
    ReadInside(r, ev, w, off, wid);
  }

  /** Both sides narrow to the same interval and take or emit the same byte. */
  lemma NarrowInStep(w: Writer, off: nat, wid: nat, bytes: seq<Byte>, d: Decoder)
    requires WriterOk(w) && InStep(w.e, d, bytes) && 0x1_0000 <= wid && off + wid <= w.e.nrange
    requires off <= d.code < off + wid && Inside(Narrow(w.e, off, wid), bytes)
    ensures var x := NormalizeDecoder(Decoder(wid, d.code - off, d.rest)); x.Ok? && InStep(Narrow(w.e, off, wid), x.value, bytes)
  {
    var n := Len(w.e) + 4;
    NarrowOk(w.e, off, wid);
    NormalizeNarrow(d, d.code - off, wid);
    if wid < TWO24 {
      BigPrefix(bytes, n);
      assert bytes[n..][1..] == bytes[n + 1..];
    }
  }

  lemma ReadInside(r: Reader, ev: Event, w: Writer, off: nat, wid: nat)
    requires WriterOk(w) && r.p == w.p && r.d.nrange == w.e.nrange
    requires off == EventOffset(w, ev) && wid == EventRange(w, ev) && off <= r.d.code < off + wid
    requires NormalizeDecoder(Decoder(wid, r.d.code - off, r.d.rest)).Ok?
    ensures Read(r, ev) == Ok((ev.b, Reader(NormalizeDecoder(Decoder(wid, r.d.code - off, r.d.rest)).value, AdaptCell(w.p, ev))))
  {
    match ev
    case Model(c, b) => ReadModelInside(r, c, b);
    case Direct(b) => DirectBitInside(r.d.nrange, r.d.code, b);
  }

  lemma ReadModelInside(r: Reader, c: Cell, b: Bit)
    requires ProbsOk(r.p) && TWO24 <= r.d.nrange < TWO32
    requires var bound := Bound(r.d.nrange, Get(r.p, c));
             if b == 0 then r.d.code < bound else bound <= r.d.code < r.d.nrange
    ensures var bound := Bound(r.d.nrange, Get(r.p, c));
            var d := NormalizeDecoder(if b == 0 then r.d.(nrange := bound)
                                      else Decoder(r.d.nrange - bound, r.d.code - bound, r.d.rest));
            ReadModel(r, c) == if d.Err? then Err(d.error) else Ok((b, Reader(d.value, r.p[c := Adapt(Get(r.p, c), b)])))
  {
    var bound := Bound(r.d.nrange, Get(r.p, c));
    BoundSplits(r.d.nrange, Get(r.p, c));
    if b == 1 {
      assert Sub32(r.d.nrange, bound) == r.d.nrange - bound;
      assert Sub32(r.d.code, bound) == r.d.code - bound;
    }
  }

  lemma DirectBitInside(nrange: nat, code: nat, b: Bit)
    requires nrange < TWO32
    requires b * (nrange / 2) <= code < b * (nrange / 2) + nrange / 2
    ensures DirectBit(nrange, code) == (b, code - b * (nrange / 2))
  {
    if b == 0 {
      assert Sub32(code, nrange / 2) == code - nrange / 2 + TWO32;
    } else {
      assert Sub32(code, nrange / 2) == code - nrange / 2;
    }
  }

  lemma NormalizeNarrow(d: Decoder, code: nat, wid: nat)
    requires code < wid < TWO32 && (wid < TWO24 ==> d.rest != [])
    ensures NormalizeDecoder(Decoder(wid, code, d.rest)) ==
            if wid >= TWO24 then Ok(Decoder(wid, code, d.rest))
            else Ok(Decoder(wid * 256, code * 256 + d.rest[0], d.rest[1..]))
  {
  }

  /** From any encoder state on, the decoder reads back every bit and ends with code 0 and no byte left. */
  lemma {:induction false} DecodeWritten(w: Writer, evs: seq<Event>, r: Reader)
    requires WriterOk(w) && r.p == w.p
    requires InStep(w.e, r.d, Close(WriteAll(w, evs).e))
    ensures Follows(r, evs)
    ensures After(r, evs).p == WriteAll(w, evs).p
    ensures After(r, evs).d.code == 0 && After(r, evs).d.rest == []
    decreases |evs|
  {
    var bytes := Close(WriteAll(w, evs).e);
    if evs == [] {
      CloseOk(w.e, w.e.nrange);
      assert bytes[..Len(w.e) + 4] == bytes;
    } else {
      FinalInside(Write(w, evs[0]), evs[1..]);
      StepInStep(w, evs[0], bytes, r);
      DecodeWritten(Write(w, evs[0]), evs[1..], Read(r, evs[0]).value.1);
    }
  }

  function Start(p: Probs): (w: Writer)
    requires ProbsOk(p)
    ensures WriterOk(w)
  {
    Writer(ENCODER_START, p)
  }

  function Encode(evs: seq<Event>, p: Probs): seq<Byte>
    requires ProbsOk(p)
  {
    Close(WriteAll(Start(p), evs).e)
  }

  lemma StartInStep(evs: seq<Event>, p: Probs)
    requires ProbsOk(p)
    ensures NewDecoder(Encode(evs, p)).Ok?
    ensures InStep(ENCODER_START, NewDecoder(Encode(evs, p)).value, Encode(evs, p))
  {
    var w := Start(p);
    var bytes := Encode(evs, p);
    FinalInside(w, evs);
    assert Digits(w.e) == [0];
    assert Big([0]) == 0 by { BigSnoc([], 0); assert [] + [0] == [0 as Byte]; }
    assert Value(w.e) == 0;
    CloseOk(WriteAll(w, evs).e, WriteAll(w, evs).e.nrange);
    assert bytes[0] == 0;
    var c4 := BigFive(bytes);
    NewDecoderReads(bytes);
  }

  function Word(a: nat, b: nat, c: nat, d: nat): nat { ((a * 256 + b) * 256 + c) * 256 + d }

  lemma BigFive(s: seq<Byte>) returns (c: nat)
    requires |s| >= 5 && s[0] == 0
    ensures c == Word(s[1], s[2], s[3], s[4]) && c == Big(s[..5])
  {
    assert s[..0] == [];
    BigPrefix(s, 0);
    BigPrefix(s, 1);
    BigPrefix(s, 2);
    BigPrefix(s, 3);
    BigPrefix(s, 4);
    c := Big(s[..5]);
  }

  lemma NewDecoderReads(s: seq<Byte>)
    requires |s| >= 5 && s[0] == 0
    ensures var code := Word(s[1], s[2], s[3], s[4]);
            NewDecoder(s) == if code >= 0xffff_ffff then Err(CodeOutOfRange) else Ok(Decoder(0xffff_ffff, code, s[5..]))
  {
    var c1: nat := s[1];
    var c2: nat := c1 * 256 + s[2];
    var c3: nat := c2 * 256 + s[3];
    UpdateReads(s, 1, 0);
    UpdateReads(s, 2, c1);
    UpdateReads(s, 3, c2);
    UpdateReads(s, 4, c3);
  }

  lemma UpdateReads(s: seq<Byte>, i: nat, code: nat)
    requires i < |s| && code < TWO24
    ensures UpdateCode(Decoder(0xffff_ffff, code, s[i..])) == Ok(Decoder(0xffff_ffff, code * 256 + s[i], s[i + 1..]))
  {
    assert s[i..][1..] == s[i + 1..];
  }

  /** Every list of modelled and direct bits survives the trip through the bytes. */
  lemma RoundTrip(evs: seq<Event>, p: Probs)
    requires ProbsOk(p)
    ensures NewDecoder(Encode(evs, p)).Ok?
    ensures var r := Reader(NewDecoder(Encode(evs, p)).value, p);
            && Follows(r, evs)
            && After(r, evs) == Reader(After(r, evs).d, WriteAll(Start(p), evs).p)
            && After(r, evs).d.code == 0
            && After(r, evs).d.rest == []
  {
    StartInStep(evs, p);
    DecodeWritten(Start(p), evs, Reader(NewDecoder(Encode(evs, p)).value, p));
  }

  lemma {:induction false} StaysBelow(w: Writer, evs: seq<Event>, r: Reader, k: nat)
    requires WriterOk(w) && r.p == w.p && k <= |evs|
    requires InStep(w.e, r.d, Close(WriteAll(w, evs).e))
    ensures Follows(r, evs[..k]) && After(r, evs[..k]).d.code < After(r, evs[..k]).d.nrange
    decreases |evs|
  {
    if k == 0 {
      FinalInside(w, evs);
    } else {
      FinalInside(Write(w, evs[0]), evs[1..]);
      StepInStep(w, evs[0], Close(WriteAll(w, evs).e), r);
      StaysBelow(Write(w, evs[0]), evs[1..], Read(r, evs[0]).value.1, k - 1);
      assert evs[..k][0] == evs[0] && evs[..k][1..] == evs[1..][..k - 1];
    }
  }

  /** "d.code will stay less than d.nrange": before every bit of a stream that the encoder made, and at its end. */
  lemma CodeStaysBelow(evs: seq<Event>, p: Probs, k: nat)
    requires ProbsOk(p) && k <= |evs|
    ensures NewDecoder(Encode(evs, p)).Ok?
    ensures var r := Reader(NewDecoder(Encode(evs, p)).value, p);
            Follows(r, evs[..k]) && After(r, evs[..k]).d.code < After(r, evs[..k]).d.nrange
  {
    StartInStep(evs, p);
    StaysBelow(Start(p), evs, Reader(NewDecoder(Encode(evs, p)).value, p), k);
  }

  /**
   "d.code will stay less than d.nrange" holds for DirectDecodeBit except when an odd range
   meets the largest code: then the new code equals the new range.
   */
  lemma DirectBitStaysBelow(nrange: nat, code: nat)
    requires TWO24 <= nrange < TWO32 && code < nrange
    ensures DirectBit(nrange, code).1 < nrange / 2 <==> !(nrange % 2 == 1 && code == nrange - 1)
    ensures DirectBit(nrange, code).1 <= nrange / 2
  {
    if code < nrange / 2 {
      DirectBitInside(nrange, code, 0);
    } else {
      assert Sub32(code, nrange / 2) == code - nrange / 2;
    }
  }

  /** The comment is false of arbitrary input: five bytes make the first direct bit leave code equal to the range. */
  lemma DirectBitCounterexample()
    ensures NewDecoder([0, 0xff, 0xff, 0xff, 0xfe]) == Ok(Decoder(0xffff_ffff, 0xffff_fffe, []))
    ensures DirectBit(0xffff_ffff, 0xffff_fffe) == (1, 0x7fff_ffff)
    ensures 0xffff_ffff / 2 == 0x7fff_ffff
  {
    NewDecoderReads([0, 0xff, 0xff, 0xff, 0xfe]);
  }
}
