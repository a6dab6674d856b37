/** LZMA2 chunks as values: headers, the chunk automaton, and what a reader makes of a byte string. */
module Lzma2Spec {
  import opened Bits
  import opened Results
  import opened Cells
  import opened RangeSpec
  import opened CodecSpec
  import opened OpSpec

  // ----- chunk types and the automaton -----

  datatype ChunkType = CEOS | CUD | CU | CL | CLR | CLRN | CLRND

  datatype ChunkState = StartState | Normal | NeedReset | Plain | Stop

  function Next(s: ChunkState, t: ChunkType): Result<ChunkState>
  {
    match s
    case StartState =>
      if t == CEOS then Ok(Stop)
      else if t == CUD then Ok(NeedReset)
      else if t == CLRND then Ok(Normal)
      else Err(BadChunkType)
    case Normal =>
      (match t
       case CEOS => Ok(Stop)
       case CUD => Ok(NeedReset)
       case CU => Ok(Plain)
       case _ => Ok(Normal))
    case NeedReset =>
      if t == CEOS then Ok(Stop)
      else if t == CUD || t == CU then Ok(NeedReset)
      else if t == CLRN || t == CLRND then Ok(Normal)
      else Err(BadChunkType)
    case Plain =>
      (match t
       case CEOS => Ok(Stop)
       case CUD => Ok(NeedReset)
       case CU => Ok(Plain)
       case _ => Ok(Normal))
    case Stop => Err(BadChunkType)
  }

  function DefaultType(s: ChunkState): ChunkType
  {
    match s
    case StartState => CLRND
    case Normal => CL
    case Plain => CL
    case NeedReset => CLRN
    case Stop => CEOS
  }

  predicate IsPlain(t: ChunkType) { t == CU || t == CUD }

  /** The type a chunk gets when its data is stored uncompressed. */
  function PlainType(t: ChunkType): ChunkType { if t == CLRND then CUD else CU }

  // ----- headers -----

  datatype Header = Header(ctype: ChunkType, uncompressed: nat, compressed: nat, props: Props)

  function HeaderLen(t: ChunkType): nat
  {
    match t
    case CEOS => 1
    case CU => 3
    case CUD => 3
    case CL => 5
    case CLR => 5
    case CLRN => 6
    case CLRND => 6
  }

  function PropsCode(p: Props): nat { (p.pb * 5 + p.lp) * 9 + p.lc }

  function PropsForCode(code: nat): Result<Props>
  {
    if code > 224 then Err(BadProperties) else Ok(Props(code % 9, code / 9 % 5, code / 45 % 5))
  }

  lemma DigitsOfCode(pb: nat, lp: nat, lc: nat)
    requires pb < 5 && lp < 5 && lc < 9
    ensures var code := (pb * 5 + lp) * 9 + lc;
            code <= 224 && code % 9 == lc && code / 9 % 5 == lp && code / 45 % 5 == pb
  {
    var code, q := (pb * 5 + lp) * 9 + lc, pb * 5 + lp;
    assert code / 9 == q && q % 5 == lp;
    assert code / 45 == pb;
  }

  lemma PropsRoundTrip(p: Props)
    requires PropsOk(p)
    ensures PropsCode(p) <= 224 && PropsForCode(PropsCode(p)) == Ok(p)
  {
    DigitsOfCode(p.pb, p.lp, p.lc);
  }

  function Word16(x: nat): seq<Byte> { [x / 256 % 256, x % 256] }

  function FirstByte(t: ChunkType, uncompressed: nat): Byte
  {
    var high := uncompressed / 0x1_0000 % 256 % 32;
    match t
    case CEOS => 0
    case CUD => 1
    case CU => 2
    case CL => 128 + high
    case CLR => 160 + high
    case CLRN => 192 + high
    case CLRND => 224 + high
  }

  function MarshalHeader(h: Header): (data: seq<Byte>)
    requires PropsOk(h.props)
    ensures |data| == HeaderLen(h.ctype)
  {
    PropsRoundTrip(h.props);
    var first := [FirstByte(h.ctype, h.uncompressed)];
    if h.ctype == CEOS then first
    else if IsPlain(h.ctype) then first + Word16(h.uncompressed)
    else
      var data := first + Word16(h.uncompressed) + Word16(h.compressed);
      if h.ctype == CL || h.ctype == CLR then data else data + [PropsCode(h.props)]
  }

  function HeaderType(b: Byte): Result<ChunkType>
  {
    if b < 128 then
      if b == 0 then Ok(CEOS) else if b == 1 then Ok(CUD) else if b == 2 then Ok(CU) else Err(BadHeaderByte)
    else if b < 160 then Ok(CL)
    else if b < 192 then Ok(CLR)
    else if b < 224 then Ok(CLRN)
    else Ok(CLRND)
  }

  function Num16(a: nat, b: nat): nat { a * 256 + b }

  function Size21(first: nat, low: nat): nat { low + first % 32 * 0x1_0000 }

  const NO_PROPS: Props := Props(0, 0, 0)

  function ReadHeader(input: seq<Byte>): Result<(Header, seq<Byte>)>
  {
    if input == [] then Err(UnexpectedEof)
    else
      var t :- HeaderType(input[0]);
      if |input| < HeaderLen(t) then Err(UnexpectedEof)
      else if t == CEOS then Ok((Header(CEOS, 0, 0, NO_PROPS), input[1..]))
      else
        var low := Num16(input[1], input[2]);
        if IsPlain(t) then Ok((Header(t, low, 0, NO_PROPS), input[3..]))
        else
          var size := Size21(input[0], low);
          var compressed := Num16(input[3], input[4]);
          if t == CL || t == CLR then Ok((Header(t, size, compressed, NO_PROPS), input[5..]))
          else
            var props :- PropsForCode(input[5]);
            Ok((Header(t, size, compressed, props), input[6..]))
  }

  /** The sizes fit the fields of the header. */
  predicate HeaderFits(h: Header)
  {
    h.ctype != CEOS ==> if IsPlain(h.ctype) then h.uncompressed < 0x1_0000 else h.uncompressed < 0x20_0000 && h.compressed < 0x1_0000
  }

  /** The header without the fields its type does not carry. */
  function Carried(h: Header): Header
  {
    match h.ctype
    case CEOS => Header(CEOS, 0, 0, NO_PROPS)
    case CL => h.(props := NO_PROPS)
    case CLR => h.(props := NO_PROPS)
    case CLRN => h
    case CLRND => h
    case _ => Header(h.ctype, h.uncompressed, 0, NO_PROPS)
  }

  /** A header is read back exactly when its sizes fit; the bytes behind it are untouched. */
  lemma HeaderRoundTrip(h: Header, tail: seq<Byte>)
    requires PropsOk(h.props)
    ensures ReadHeader(MarshalHeader(h) + tail).Ok?
    ensures ReadHeader(MarshalHeader(h) + tail).value.1 == tail
    ensures HeaderFits(h) <==> ReadHeader(MarshalHeader(h) + tail).value.0 == Carried(h)
  {
    var data := MarshalHeader(h);
    var input := data + tail;
    PropsRoundTrip(h.props);
    FirstByteRead(h.ctype, h.uncompressed);
    assert input[0] == FirstByte(h.ctype, h.uncompressed);
    assert input[HeaderLen(h.ctype)..] == tail;
    if h.ctype != CEOS {
      assert input[1] == h.uncompressed / 256 % 256 && input[2] == h.uncompressed % 256;
      Word16Read(h.uncompressed);
      if !IsPlain(h.ctype) {
        assert input[3] == h.compressed / 256 % 256 && input[4] == h.compressed % 256;
        Word16Read(h.compressed);
        SizeRead(h.uncompressed);
        if h.ctype == CLRN || h.ctype == CLRND { assert input[5] == PropsCode(h.props); }
      }
    }
  }

  lemma Mod32(q: nat)
    ensures q % 256 % 32 == q % 32
  {
  }

  lemma FirstByteRead(t: ChunkType, u: nat)
    ensures HeaderType(FirstByte(t, u)) == Ok(t)
    ensures t != CEOS && !IsPlain(t) ==> FirstByte(t, u) % 32 == u / 0x1_0000 % 32
  {
    var q := u / 0x1_0000;
    Mod32(q);
    assert 0 <= q % 256 % 32 < 32;
  }

  lemma Word16Read(x: nat)
    ensures Num16(x / 256 % 256, x % 256) == x % 0x1_0000
    ensures x % 0x1_0000 == x <==> x < 0x1_0000
  {
    var q := x / 256;
    assert x == q * 256 + x % 256 && q == q / 256 * 256 + q % 256;
    assert x == q / 256 * 0x1_0000 + (q % 256 * 256 + x % 256);
  }

  lemma SizeRead(u: nat)
    ensures u % 0x1_0000 + u / 0x1_0000 % 32 * 0x1_0000 == u <==> u < 0x20_0000
  {
    var q := u / 0x1_0000;
    assert u == q * 0x1_0000 + u % 0x1_0000;
  }

  // ----- the reader -----

  /** The LZMA state a reader carries from one compressed chunk to the next. */
  datatype Carry = Carry(p: Probs, st: LzState, props: Props)

  /** A reader between two chunks: the automaton, the dictionary, the LZMA decoder if one exists, the output so far. */
  datatype Reader2 = Reader2(cstate: ChunkState, hist: seq<Byte>, dec: Option<Carry>, output: seq<Byte>)

  const READER2_START: Reader2 := Reader2(StartState, [], None, [])

  /** The LZMA state a compressed chunk of this type starts with. */
  function ChunkCarry(r: Reader2, h: Header): Option<Carry>
  {
    match r.dec
    case None => Some(Carry(map[], INITIAL_STATE, h.props))
    case Some(c) =>
      match h.ctype
      case CLR => Some(Carry(map[], INITIAL_STATE, c.props))
      case CLRN => Some(Carry(map[], INITIAL_STATE, h.props))
      case CLRND => Some(Carry(map[], INITIAL_STATE, h.props))
      case _ => Some(c)
  }

  /** Reads one chunk that is not the end; `cap` is the capacity of the reader's dictionary. */
  function ReadChunk(input: seq<Byte>, r: Reader2, cap: nat): Result<(seq<Byte>, Reader2)>
  {
    var (h, rest) :- ReadHeader(input);
    var cstate :- Next(r.cstate, h.ctype);
    if cstate == Stop then Ok((rest, r.(cstate := Stop)))
    else
      var hist := if h.ctype == CUD || h.ctype == CLRND then [] else r.hist;
      var size := h.uncompressed + 1;
      if IsPlain(h.ctype) then
        if |rest| < size then Err(UnexpectedEof)
        else Ok((rest[size..], Reader2(cstate, hist + rest[..size], r.dec, r.output + rest[..size])))
      else ReadCompressed(h.uncompressed + 1, h.compressed + 1, rest, cstate, hist, ChunkCarry(r, h).value, r.output, cap)
  }

  function ReadCompressed(size: nat, limit: nat, rest: seq<Byte>, cstate: ChunkState, hist: seq<Byte>, c: Carry, output: seq<Byte>, cap: nat): Result<(seq<Byte>, Reader2)>
  {
    if !PropsOk(c.props) then Err(BadProperties)
    else
      var n := if limit <= |rest| then limit else |rest|;
      var d :- NewDecoder(rest[..n]);
      match OpSpec.Decompress(Decoding(Reader(d, c.p), c.st, hist, |hist|, size, false), c.props, cap, size + MAX_MATCH_LEN)
      case Failed(e) => Err(e)
      case Full(_) => Err(UnexpectedEof)
      case AtEof(d') =>
        if |d'.hist| < |hist| then Err(WrongSize)
        else Ok((d'.r.d.rest + rest[n..],
                 Reader2(cstate, d'.hist, Some(Carry(d'.r.p, d'.st, c.props)), output + d'.hist[|hist|..])))
  }

  /** The whole output of a chunk sequence that ends with the end-of-stream chunk. */
  function ReadStream(input: seq<Byte>, r: Reader2, cap: nat): Result<seq<Byte>>
    decreases |input|
  {
    var (rest, r') :- ReadChunk(input, r, cap);
    if r'.cstate == Stop then Ok(r'.output)
    else if |rest| >= |input| then Err(UnexpectedEof)
    else ReadStream(rest, r', cap)
  }

  // ----- one chunk -----

  function CompressedChunk(ctype: ChunkType, p: Probs, st: LzState, props: Props, hist: seq<Byte>, encCap: nat, ops: seq<Op>): seq<Byte>
    requires ProbsOk(p) && PropsOk(props) && ValidOps(st, hist, encCap, ops) && ops != []
  {
    var body := EncodeStream(p, st, props, hist, encCap, ops, false);
    var u := |Expand(st, hist, encCap, ops)| - |hist|;
    MarshalHeader(Header(ctype, u - 1, if body == [] then 0 else |body| - 1, props)) + body
  }

  function PlainChunk(ctype: ChunkType, bytes: seq<Byte>): seq<Byte>
    requires bytes != []
  {
    MarshalHeader(Header(ctype, |bytes| - 1, 0, NO_PROPS)) + bytes
  }

  /** The reader is ready for a compressed chunk that starts in this LZMA state. */
  predicate Ready(r: Reader2, ctype: ChunkType, p: Probs, st: LzState, props: Props, hist: seq<Byte>)
  {
    && !IsPlain(ctype) && ctype != CEOS && Next(r.cstate, ctype).Ok?
    && r.hist == hist && (ctype == CLRND ==> hist == [])
    && (ctype == CL ==> r.dec == Some(Carry(p, st, props)))
    && (ctype != CL ==> p == map[] && st == INITIAL_STATE && (ctype == CLR ==> r.dec.Some? && r.dec.value.props == props))
  }

  /** A compressed chunk moves the reader exactly to where the writer stands behind it. */
  lemma CompressedChunkRead(r: Reader2, ctype: ChunkType, p: Probs, st: LzState, props: Props, hist: seq<Byte>, encCap: nat, decCap: nat, ops: seq<Op>, tail: seq<Byte>)
    requires ProbsOk(p) && PropsOk(props) && ValidOps(st, hist, encCap, ops) && RepsOk(st, hist, encCap) && ops != []
    requires 1 <= encCap <= EOS_DIST && DictSuits(encCap, decCap, |Expand(st, hist, encCap, ops)|)
    requires Ready(r, ctype, p, st, props, hist)
    requires |EncodeStream(p, st, props, hist, encCap, ops, false)| <= 0x1_0000
    requires |Expand(st, hist, encCap, ops)| - |hist| <= 0x20_0000
    ensures var goal := StreamGoal(p, st, props, hist, encCap, ops, false);
            ReadChunk(CompressedChunk(ctype, p, st, props, hist, encCap, ops) + tail, r, decCap) ==
            Ok((tail, Reader2(Next(r.cstate, ctype).value, goal.hist, Some(Carry(goal.p, goal.st, props)), r.output + goal.hist[|hist|..])))
  {
    hide Decompress, NewDecoder, EncodeStream, ReadHeader, MarshalHeader, StreamGoal, ReadCompressed, ValidOps, RepsOk, ProbsOk;
    var body := EncodeStream(p, st, props, hist, encCap, ops, false);
    var u := |Expand(st, hist, encCap, ops)| - |hist|;
    BodyRead(p, st, props, hist, encCap, decCap, ops, tail, r.output, Next(r.cstate, ctype).value);
    var h := Header(ctype, u - 1, |body| - 1, props);
    HeaderRoundTrip(h, body + tail);
    assert MarshalHeader(h) + body + tail == MarshalHeader(h) + (body + tail);
    assert ChunkCarry(r, Carried(h)) == Some(Carry(p, st, props));
  }

  lemma BodyRead(p: Probs, st: LzState, props: Props, hist: seq<Byte>, encCap: nat, decCap: nat, ops: seq<Op>, tail: seq<Byte>, output: seq<Byte>, cstate: ChunkState)
    requires ProbsOk(p) && PropsOk(props) && ValidOps(st, hist, encCap, ops) && RepsOk(st, hist, encCap) && ops != []
    requires 1 <= encCap <= EOS_DIST && DictSuits(encCap, decCap, |Expand(st, hist, encCap, ops)|)
    ensures EncodeStream(p, st, props, hist, encCap, ops, false) != []
    ensures var body, u := EncodeStream(p, st, props, hist, encCap, ops, false), |Expand(st, hist, encCap, ops)| - |hist|;
            var goal := StreamGoal(p, st, props, hist, encCap, ops, false);
            ReadCompressed(u, |body|, body + tail, cstate, hist, Carry(p, st, props), output, decCap) ==
            Ok((tail, Reader2(cstate, goal.hist, Some(Carry(goal.p, goal.st, props)), output + goal.hist[|hist|..])))
  {
    hide Decompress, NewDecoder, EncodeStream, ValidOps, RepsOk, ProbsOk, OpsEvents;
    var body := EncodeStream(p, st, props, hist, encCap, ops, false);
    var u := |Expand(st, hist, encCap, ops)| - |hist|;
    StreamRoundTrip(p, st, props, hist, encCap, decCap, ops, false, u, u + MAX_MATCH_LEN);
    NotEmpty(body);
    assert (body + tail)[..|body|] == body && (body + tail)[|body|..] == tail;
    assert [] + tail == tail;
  }

  lemma NotEmpty(body: seq<Byte>)
    requires NewDecoder(body).Ok?
    ensures body != []
  {
  }

  /** A plain chunk adds its bytes to the reader's output and history, and leaves its LZMA state alone. */
  lemma PlainChunkRead(r: Reader2, ctype: ChunkType, bytes: seq<Byte>, cap: nat, tail: seq<Byte>)
    requires IsPlain(ctype) && Next(r.cstate, ctype).Ok? && 1 <= |bytes| <= 0x1_0000
    ensures ReadChunk(PlainChunk(ctype, bytes) + tail, r, cap) ==
            Ok((tail, Reader2(Next(r.cstate, ctype).value, (if ctype == CUD then [] else r.hist) + bytes, r.dec, r.output + bytes)))
  {
    hide ReadHeader, MarshalHeader;
    var h := Header(ctype, |bytes| - 1, 0, NO_PROPS);
    HeaderRoundTrip(h, bytes + tail);
    assert MarshalHeader(h) + bytes + tail == MarshalHeader(h) + (bytes + tail);
    assert (bytes + tail)[..|bytes|] == bytes && (bytes + tail)[|bytes|..] == tail;
  }

  /**
     A stored chunk of more than 64 KiB: its header keeps 16 bits of the size, so the reader takes what exceeds 64 KiB
     for the whole chunk and looks for the next header inside the data.
   */
  lemma LongPlainChunkRead(r: Reader2, ctype: ChunkType, bytes: seq<Byte>, cap: nat, tail: seq<Byte>)
    requires IsPlain(ctype) && Next(r.cstate, ctype).Ok? && 0x1_0000 < |bytes| <= 0x2_0000
    ensures var n := |bytes| - 0x1_0000;
            ReadChunk(PlainChunk(ctype, bytes) + tail, r, cap) ==
            Ok((bytes[n..] + tail, Reader2(Next(r.cstate, ctype).value, (if ctype == CUD then [] else r.hist) + bytes[..n], r.dec, r.output + bytes[..n])))
  {
    hide ReadHeader, MarshalHeader;
    var n := |bytes| - 0x1_0000;
    var h, short := Header(ctype, |bytes| - 1, 0, NO_PROPS), Header(ctype, n - 1, 0, NO_PROPS);
    HeaderRoundTrip(short, bytes + tail);
    SameHeader(ctype, |bytes| - 1, n - 1);
    assert MarshalHeader(h) + bytes + tail == MarshalHeader(h) + (bytes + tail);
    assert (bytes + tail)[..n] == bytes[..n] && (bytes + tail)[n..] == bytes[n..] + tail;
  }

  lemma SameHeader(ctype: ChunkType, u: nat, v: nat)
    requires IsPlain(ctype) && u == v + 0x1_0000
    ensures MarshalHeader(Header(ctype, u, 0, NO_PROPS)) == MarshalHeader(Header(ctype, v, 0, NO_PROPS))
  {
    assert u / 256 == v / 256 + 256;
  }

  lemma EndRead(r: Reader2, cap: nat)
    requires r.cstate != Stop
    ensures ReadStream([0], r, cap) == Ok(r.output)
  {
    assert HeaderType(0) == Ok(CEOS);
  }

  /** The reader, fed `out` and anything behind it, continues from `r` with what is behind. */
  ghost predicate Reads(out: seq<Byte>, r: Reader2, cap: nat)
  {
    r.cstate != Stop && forall tail :: ReadStream(out + tail, READER2_START, cap) == ReadStream(tail, r, cap)
  }

  lemma ReadsNothing(cap: nat)
    ensures Reads([], READER2_START, cap)
  {
    forall tail: seq<Byte>
      ensures ReadStream([] + tail, READER2_START, cap) == ReadStream(tail, READER2_START, cap)
    {
      assert [] + tail == tail;
    }
  }

  lemma ReadsMore(out: seq<Byte>, r: Reader2, chunk: seq<Byte>, r': Reader2, cap: nat)
    requires Reads(out, r, cap) && chunk != [] && r'.cstate != Stop
    requires forall tail :: ReadChunk(chunk + tail, r, cap) == Ok((tail, r'))
    ensures Reads(out + chunk, r', cap)
  {
    hide ReadChunk;
    forall tail
      ensures ReadStream(out + chunk + tail, READER2_START, cap) == ReadStream(tail, r', cap)
    {
      assert out + chunk + tail == out + (chunk + tail);
      assert ReadChunk(chunk + tail, r, cap) == Ok((tail, r'));
    }
  }
}
