/** The LZMA2 chunk writer, whose output the chunk reader of Lzma2Spec reads back. */
module Lzma2 {
  import opened Bits
  import opened Results
  import opened Cells
  import opened RangeSpec
  import opened CodecSpec
  import opened OpSpec
  import opened LzmaBuffer
  import opened LzmaCoder
  import opened LzmaEncoder
  import RollingHash
  import HashTables
  import LzmaSize
  import opened Lzma2Spec

  const MAX_COMPRESSED: int := 0x1_0000
  const MAX_UNCOMPRESSED: int := 0x20_0000

  /** The header of a chunk of u bytes, coded in c. */
  function Head(t: ChunkType, u: int, c: int, props: Props): seq<Byte>
  {
    if PropsOk(props) && u >= 1 && c >= 1 then MarshalHeader(Header(t, u - 1, c - 1, props)) else []
  }

  class Writer2 {
    var out: seq<Byte>
    var start: State
    const encoder: LzmaEncoder.Encoder
    var cstate: ChunkState
    var ctype: ChunkType
    /** The capacity of the dictionary of the readers considered, and where such a reader stands behind `out`. */
    ghost const readerCap: nat
    ghost var reader: Reader2

    /** Between calls, with room in the chunk for more input. */
    ghost predicate Valid()
      reads this, start, encoder, encoder.dict, encoder.dict.buf, encoder.dict.buf.data, encoder.m, encoder.m.t, encoder.m.data,
            encoder.m.wr, encoder.m.hr, encoder.state, encoder.re
    {
      Chunked() && Pending() < MAX_UNCOMPRESSED
    }

    ghost predicate Chunked()
      reads this, start, encoder, encoder.dict, encoder.dict.buf, encoder.dict.buf.data, encoder.m, encoder.m.t, encoder.m.data,
            encoder.m.wr, encoder.m.hr, encoder.state, encoder.re
    {
      && encoder.Valid() && start.Valid() && start != encoder.state && !encoder.marker
      && encoder.limit == Some(MAX_COMPRESSED)
      && encoder.dict.capacity <= readerCap
      && encoder.log.p == start.probs && encoder.log.st == start.St() && start.props == encoder.state.props
      && cstate != Stop && ctype == DefaultType(cstate)
      && RepsOk(start.St(), encoder.dict.all[..encoder.log.start], encoder.dict.capacity)
      && Reads(out, reader, readerCap)
      && AtBoundary()
      && Pending() <= MAX_UNCOMPRESSED
    }

    /** At the chunk boundary the reader's automaton, history, output and LZMA state are the writer's saved ones. */
    ghost predicate AtBoundary()
      requires encoder.dict.Valid() && encoder.log.start <= encoder.dict.head && start.Valid()
      reads this, start, encoder, encoder.dict, encoder.dict.buf, encoder.dict.buf.data
    {
      && reader.cstate == cstate
      && reader.hist == reader.output == encoder.dict.all[..encoder.log.start]
      && Ready(reader, ctype, start.probs, start.St(), start.props, reader.hist)
    }

    /** `dict_`, `m_` and `props` come from the configuration; nothing has been written yet. */
    constructor (dict_: EncoderDict, m_: HashTables.HashTable, props: Props, ghost cap: nat)
      requires dict_.Valid() && m_.Valid() && PropsOk(props) && dict_.all == [] && m_.input == []
      requires m_.t != dict_.buf.data as object && m_.data != dict_.buf.data as object && m_.wr != m_.hr
      requires dict_.buf.Cap() >= dict_.capacity + MAX_MATCH_LEN && dict_.capacity <= cap
      ensures Valid() && out == [] && encoder.dict == dict_ && encoder.m == m_ && readerCap == cap
      ensures fresh(encoder) && fresh(start) && fresh(encoder.state) && fresh(encoder.re)
      ensures cstate == StartState && encoder.log == Log(map[], INITIAL_STATE, 0, []) && start.props == props
    {
      hide RingSlice, RecentOf, SameTail, HashTables.HashTable.Valid, LogOk, Reads, Ready, EncoderDict.Valid, Chunked, RepsOk;
      dict_.Facts();
      ReadyAtStart(props);
      RepsAtStart(dict_.capacity);
      var s := new State(props);
      start := s;
      var clone := CloneState(s);
      assert dict_.Hist() == [];
      encoder := new LzmaEncoder.Encoder(dict_, m_, clone, false, Some(MAX_COMPRESSED));
      out, cstate, ctype := [], StartState, CLRND;
      readerCap, reader := cap, READER2_START;
      ReadsNothing(cap);
      new;
      Opened();
    }

    lemma Opened()
      requires encoder.Valid() && start.Valid() && start != encoder.state && !encoder.marker && encoder.limit == Some(MAX_COMPRESSED)
      requires encoder.dict.capacity <= readerCap && encoder.dict.all == [] && start.props == encoder.state.props
      requires encoder.log == Log(map[], INITIAL_STATE, 0, []) && start.probs == map[] && start.St() == INITIAL_STATE
      requires cstate == StartState && ctype == CLRND && reader == READER2_START && Reads(out, reader, readerCap)
      requires Ready(READER2_START, CLRND, map[], INITIAL_STATE, start.props, [])
      ensures Chunked()
    {
      hide RingSlice, RecentOf, SameTail, HashTables.HashTable.Valid, LogOk, Reads, Ready;
    }

    static lemma RepsAtStart(cap: nat)
      ensures RepsOk(INITIAL_STATE, [], cap)
    {
    }

    static lemma ReadyAtStart(props: Props)
      ensures Ready(READER2_START, CLRND, map[], INITIAL_STATE, props, [])
    {
    }

    /** Whether the data is larger compressed than stored. */
    function Incompressible(): bool
      requires encoder.dict.head >= encoder.start
      reads this, encoder, encoder.dict, encoder.re
    {
      3 + (encoder.dict.head - encoder.start) < HeaderLen(ctype) + |encoder.re.out|
    }

    ghost function Pending(): int
      requires encoder.dict.Valid()
      reads this, encoder, encoder.dict, encoder.dict.buf, encoder.dict.buf.data
    {
      |encoder.dict.all| - encoder.log.start
    }

    /** The number of bytes given to the current chunk so far, compressed or waiting. */
    function Written(): (n: int)
      requires encoder.dict.Valid()
      reads this, encoder, encoder.dict, encoder.dict.buf, encoder.dict.buf.data
      ensures encoder.start == encoder.log.start ==> n == Pending()
    {
      encoder.dict.head - encoder.start + encoder.dict.buf.Buffered()
    }

    /** The encoder has closed a chunk that is not empty, and the reader still stands where the chunk began. */
    ghost predicate Closed()
      reads this, start, encoder, encoder.dict, encoder.dict.buf, encoder.dict.buf.data, encoder.state, encoder.re
    {
      && encoder.dict.Valid() && encoder.state.Valid() && start.Valid() && start != encoder.state
      && encoder.dict.capacity <= readerCap
      && encoder.log.p == start.probs && encoder.log.st == start.St() && start.props == encoder.state.props
      && encoder.start == encoder.log.start < encoder.dict.head <= encoder.start + MAX_UNCOMPRESSED
      && RepsOk(encoder.state.St(), encoder.dict.Hist(), encoder.dict.capacity)
      && ChunkOk(encoder.dict.all[..encoder.log.start], encoder.dict.Hist(), encoder.dict.capacity, start.probs, start.St(), start.props,
                 encoder.log.ops, Goal(encoder.dict.Hist(), encoder.state.St(), encoder.state.probs), encoder.re.out)
      && ctype == DefaultType(cstate)
      && Reads(out, reader, readerCap)
      && AtBoundary()
    }

    /** The written chunk leaves a reader, in state `cs`, with everything encoded so far. */
    ghost predicate Flushed(cs: ChunkState)
      reads this, encoder, encoder.dict, encoder.dict.buf, encoder.dict.buf.data, encoder.state
    {
      && encoder.dict.Valid() && encoder.state.Valid()
      && reader.cstate == cs != Stop && reader.hist == reader.output == encoder.dict.Hist()
      && RepsOk(encoder.state.St(), encoder.dict.Hist(), encoder.dict.capacity)
      && Reads(out, reader, readerCap)
      && Ready(reader, DefaultType(cs), encoder.state.probs, encoder.state.St(), encoder.state.props, reader.hist)
    }

    /** Stores the chunk's input as it is and rolls the LZMA state back to where the chunk began. */
    method WriteUncompressedChunk() returns (err: Option<Error>, sized: bool)
      requires Closed()
      modifies this`out, this`ctype, this`reader, encoder`state
      ensures encoder.state == start && ctype == PlainType(old(ctype))
      ensures err == if encoder.dict.head - encoder.start > encoder.dict.Len() then Some(NoSpace) else None
      ensures sized == (encoder.dict.head - encoder.start <= 0x1_0000)
      ensures err == None && sized ==> Next(cstate, ctype).Ok? && Flushed(Next(cstate, ctype).value)
      ensures out == old(out) + Head(ctype, encoder.dict.head - encoder.start, 1, NO_PROPS) +
                     encoder.dict.Hist()[if err == None then encoder.start else encoder.dict.head - encoder.dict.Len()..]
      ensures err.Some? && sized ==> ReadStream(out, READER2_START, readerCap).Err?
    {
      hide RingSlice, RecentOf, SameTail, Reads, RepsOk, ProbsOk, MarshalHeader, EncoderDict.Valid, Next, Ready, ReadStream, Closed;
      PlainReady();
      var u := encoder.dict.head - encoder.start;
      sized := u <= 0x1_0000;
      ghost var out0, ctype0 := out, ctype;
      ctype := if ctype == CLRND then CUD else CU;
      encoder.state := start;
      out := out + MarshalHeader(Header(ctype, u - 1, 0, NO_PROPS));
      var p;
      p, err := encoder.dict.CopyN(u);
      if err.Some? && sized { PlainCut(out0, reader, ctype0, u, p, readerCap); }
      out := out + p;
      if err == None && sized {
        reader := Reader2(Next(reader.cstate, ctype).value, encoder.dict.Hist(), reader.dec, encoder.dict.Hist());
      }
    }

    /** What storing the chunk instead would do to a reader. */
    lemma PlainReady()
      requires Closed()
      ensures encoder.dict.Valid() && start.Valid() && encoder.start < encoder.dict.head && reader.cstate == cstate
      ensures RepsOk(start.St(), encoder.dict.Hist(), encoder.dict.capacity) && Reads(out, reader, readerCap)
      ensures var u, t := encoder.dict.head - encoder.start, PlainType(ctype);
              u <= 0x1_0000 ==>
                && Next(cstate, t).Ok? && Next(cstate, t).value != Stop
                && Reads(out + MarshalHeader(Header(t, u - 1, 0, NO_PROPS)) + encoder.dict.all[encoder.start..encoder.dict.head],
                         Reader2(Next(cstate, t).value, encoder.dict.Hist(), reader.dec, encoder.dict.Hist()), readerCap)
                && Ready(Reader2(Next(cstate, t).value, encoder.dict.Hist(), reader.dec, encoder.dict.Hist()), DefaultType(Next(cstate, t).value),
                         start.probs, start.St(), start.props, encoder.dict.Hist())
    {
      hide RingSlice, RecentOf, SameTail, Reads, RepsOk, ProbsOk, MarshalHeader, EncoderDict.Valid, ChunkOk, Next, Ready;
      encoder.dict.Facts();
      var hist0, hist1 := encoder.dict.all[..encoder.log.start], encoder.dict.Hist();
      ChunkStart(hist0, hist1, encoder.dict.capacity, start.probs, start.St(), start.props,
                 encoder.log.ops, Goal(hist1, encoder.state.St(), encoder.state.probs), encoder.re.out);
      assert encoder.dict.all[encoder.start..encoder.dict.head] == hist1[|hist0|..];
      if encoder.dict.head - encoder.start <= 0x1_0000 {
        PlainFlushed(out, reader, ctype, start.probs, start.St(), start.props, hist0, hist1, readerCap);
      }
    }

    method WriteCompressedChunk() returns (sized: bool)
      requires Closed()
      modifies this`out, this`reader
      ensures sized == (|encoder.re.out| <= MAX_COMPRESSED)
      ensures sized ==> Next(cstate, ctype).Ok? && Flushed(Next(cstate, ctype).value)
      ensures out == old(out) + Head(ctype, encoder.dict.head - encoder.start, |encoder.re.out|, start.props) + encoder.re.out
    {
      hide RingSlice, RecentOf, SameTail, Reads, RepsOk, ProbsOk, MarshalHeader, EncoderDict.Valid, ChunkOk;
      encoder.dict.Facts();
      var u := encoder.dict.head - encoder.start;
      sized := |encoder.re.out| <= MAX_COMPRESSED;
      ghost var hist1 := encoder.dict.Hist();
      ghost var goal := Goal(hist1, encoder.state.St(), encoder.state.probs);
      ChunkStart(encoder.dict.all[..encoder.log.start], hist1, encoder.dict.capacity, start.probs, start.St(), start.props,
                 encoder.log.ops, goal, encoder.re.out);
      if sized {
        CompressedFlushed(out, reader, ctype, start.probs, start.St(), start.props, encoder.dict.all[..encoder.log.start], hist1,
                          encoder.dict.capacity, readerCap, encoder.log.ops, goal, encoder.re.out);
      }
      out := out + MarshalHeader(Header(ctype, u - 1, |encoder.re.out| - 1, encoder.state.props));
      out := out + encoder.re.out;
      if sized {
        reader := Reader2(Normal, hist1, Some(Carry(encoder.state.probs, encoder.state.St(), start.props)), hist1);
      }
    }

    /** Writes the closed chunk in the shorter form. */
    method WriteChunk() returns (err: Option<Error>, sized: bool)
      requires Closed()
      modifies this`out, this`ctype, this`reader, encoder`state
      ensures err == if old(Incompressible()) && encoder.dict.head - encoder.start > encoder.dict.Len() then Some(NoSpace) else None
      ensures sized == if old(Incompressible()) then encoder.dict.head - encoder.start <= 0x1_0000 else |encoder.re.out| <= MAX_COMPRESSED
      ensures err.Some? && sized ==> ReadStream(out, READER2_START, readerCap).Err?
      ensures encoder.state == if old(Incompressible()) then start else old(encoder.state)
      ensures err == None && sized ==> Next(cstate, ctype).Ok? && Flushed(Next(cstate, ctype).value)
    {
      hide Flushed, RingSlice, RecentOf, SameTail, Reads, RepsOk, ProbsOk, ChunkOk;
      if Incompressible() {
        err, sized := WriteUncompressedChunk();
      } else {
        sized := WriteCompressedChunk();
        err := None;
      }
    }

    /** Closes the encoder's stream; at least one operation is in it. */
    method CloseChunk()
      requires Chunked() && Pending() > 0
      modifies encoder`log, encoder.dict, encoder.dict.buf, encoder.m, encoder.m.t, encoder.m.data, encoder.m.wr, encoder.m.hr, encoder.re, encoder.state
      ensures Closed() && encoder.m.Valid() && encoder.m.input == encoder.dict.Hist() && encoder.dict.all == old(encoder.dict.all)
      ensures encoder.log.start == old(encoder.log.start) && encoder.log.p == old(encoder.log.p) && encoder.log.st == old(encoder.log.st)
      ensures old(encoder.Small()) ==> encoder.dict.head == |encoder.dict.all|
    {
      hide RingSlice, RecentOf, SameTail, HashTables.HashTable.Valid, LogOk, Reads, EncodeStream, StreamGoal, ValidOps, RepsOk, ProbsOk;
      encoder.dict.Facts();
      encoder.Close();
    }

    /** All that has been written is one short chunk that does not get any shorter, and the ring cannot hold it. */
    ghost predicate Stuck()
      reads this, start, encoder, encoder.dict, encoder.dict.buf, encoder.dict.buf.data, encoder.m, encoder.m.t, encoder.m.data,
            encoder.m.wr, encoder.m.hr, encoder.state, encoder.re
    {
      && Chunked() && cstate == StartState && encoder.Small() && encoder.log.start == 0
      && encoder.log.p == map[] && encoder.log.st == INITIAL_STATE && PropsOk(start.props)
      && |encoder.dict.all| > encoder.dict.buf.Cap()
      && LzmaSize.Hard(start.props, encoder.dict.capacity, encoder.dict.all, |encoder.dict.all| - 1)
    }

    /** Whatever operations were chosen, the chunk has to be stored. */
    lemma StuckStores()
      requires Closed() && encoder.log.start == 0 && encoder.log.p == map[] && encoder.log.st == INITIAL_STATE && cstate == StartState
      requires encoder.dict.head == |encoder.dict.all| && PropsOk(start.props)
      requires LzmaSize.Hard(start.props, encoder.dict.capacity, encoder.dict.all, |encoder.dict.all| - 1)
      ensures Incompressible()
    {
      hide EncodeStream, Expand, ValidOps, RepsOk, ProbsOk, Reads, Ready;
      assert encoder.dict.all[..0] == [] && encoder.dict.all[..encoder.dict.head] == encoder.dict.all;
      assert !LzmaSize.Shorter(start.props, encoder.dict.capacity, encoder.dict.all, |encoder.dict.all| - 1, encoder.log.ops);
      NoOps(start.props, encoder.dict.capacity, encoder.log.ops);
    }

    lemma NoOps(props: Props, cap: nat, ops: seq<Op>)
      requires ValidOps(INITIAL_STATE, [], cap, ops)
      ensures ops == [] ==> Expand(INITIAL_STATE, [], cap, ops) == []
    {
    }

    /**
     Ends the current chunk and opens the next. `sized` says whether the compressed size, or that of a stored chunk, fitted
     its 16-bit field in the header; when it did, a reader of the output stands exactly where the writer does, or cannot go on
     because the ring no longer held all bytes of a stored chunk.
     */
    method FlushChunk() returns (err: Option<Error>, sized: bool)
      requires Chunked()
      modifies this, encoder, encoder.dict, encoder.dict.buf, encoder.m, encoder.m.t, encoder.m.data, encoder.m.wr, encoder.m.hr, encoder.state, encoder.re
      ensures encoder.dict.Valid() && encoder.dict.all == old(encoder.dict.all)
      ensures old(Pending()) == 0 ==> err == None && sized && out == old(out)
      ensures err == None && sized ==> Valid() && (encoder.state == old(encoder.state) || encoder.state == old(start))
      ensures err == None && sized ==> fresh(start) || start == old(start)
      ensures err == None && sized ==> fresh(encoder.re) || encoder.re == old(encoder.re)
      ensures err == None && sized && old(Pending()) > 0 ==> Pending() < old(Pending())
      ensures err == None || err == Some(NoSpace)
      ensures err.Some? && sized ==> ReadStream(out, READER2_START, readerCap).Err? && encoder.dict.capacity < 0x1_0000
      ensures old(Stuck()) ==> err.Some? && sized
    {
      hide RingSlice, RecentOf, SameTail, HashTables.HashTable.Valid, LogOk, Reads, ChunkOk, RepsOk, ProbsOk, EncoderDict.Valid, Closed, Next, LzmaSize.Hard, ReadStream, Chunked, Flushed;
      ChunkedFacts();
      if Written() == 0 {
        return None, true;
      }
      ghost var stuck := Stuck();
      CloseChunk();
      ClosedFacts();
      if stuck { StuckStores(); }
      err, sized := WriteChunk();
      if err.Some? || !sized {
        return;
      }
      OpenChunk();
    }

    lemma ClosedFacts()
      requires Closed()
      ensures encoder.dict.Valid() && encoder.start == encoder.log.start < encoder.dict.head
      ensures start.Valid() && start != encoder.state && encoder.dict.capacity <= readerCap
      ensures (if encoder.dict.head < encoder.dict.capacity then encoder.dict.head else encoder.dict.capacity) <= encoder.dict.Len()
      ensures encoder.dict.Len() <= encoder.dict.buf.Cap() && encoder.dict.head <= |encoder.dict.all|
    {
      hide RingSlice, RecentOf, SameTail, Reads, RepsOk, ProbsOk, ChunkOk, Ready, EncoderDict.Valid;
      encoder.dict.Facts();
    }

    lemma ChunkedFacts()
      requires Chunked()
      ensures encoder.dict.Valid() && encoder.start == encoder.log.start <= encoder.dict.head <= |encoder.dict.all| && Written() == Pending()
      ensures encoder.limit == Some(MAX_COMPRESSED) && start != encoder.state && encoder.Separate() && !encoder.marker
      ensures encoder.dict.buf.Cap() >= encoder.dict.capacity + MAX_MATCH_LEN && Pending() <= MAX_UNCOMPRESSED
    {
      hide RingSlice, RecentOf, SameTail, Reads, RepsOk, ProbsOk, ChunkOk, Ready, LogOk, HashTables.HashTable.Valid;
    }

    /** Opens the next chunk where the last one ended. */
    method OpenChunk()
      requires Next(cstate, ctype).Ok? && Flushed(Next(cstate, ctype).value)
      requires encoder.m.Valid() && encoder.Separate() && encoder.m.input == encoder.dict.Hist() && !encoder.marker
      requires encoder.dict.buf.Cap() >= encoder.dict.capacity + MAX_MATCH_LEN && encoder.dict.capacity <= readerCap
      requires |encoder.dict.all| - encoder.dict.head < MAX_UNCOMPRESSED
      modifies `cstate, `ctype, `start, encoder
      ensures Valid() && encoder.state == old(encoder.state) && fresh(start) && fresh(encoder.re)
      ensures encoder.log.start == encoder.dict.head
    {
      hide RingSlice, RecentOf, SameTail, HashTables.HashTable.Valid, LogOk, Reads, RepsOk, ProbsOk, EncoderDict.Valid, Next;
      encoder.Reopen(Some(MAX_COMPRESSED));
      cstate := Next(cstate, ctype).value;
      ctype := DefaultType(cstate);
      start := CloneState(encoder.state);
    }

    /** Takes input; a chunk that is full is flushed. */
    method Write(p: seq<Byte>) returns (n: nat, err: Option<Error>, sized: bool)
      requires Valid()
      modifies this, encoder, encoder.dict, encoder.dict.buf, encoder.dict.buf.data, encoder.m, encoder.m.t, encoder.m.data, encoder.m.wr, encoder.m.hr,
               encoder.state, encoder.re, start
      ensures encoder.dict.Valid() && n <= |p| && encoder.dict.all == old(encoder.dict.all) + p[..n]
      ensures err == None && sized ==> Valid() && n == |p|
      ensures err == None && sized ==> encoder.state == old(encoder.state) || encoder.state == old(start) || fresh(encoder.state)
      ensures err == None && sized ==> (start == old(start) || fresh(start)) && (encoder.re == old(encoder.re) || fresh(encoder.re))
      ensures err == None || err == Some(NoSpace)
      ensures err.Some? && sized ==> ReadStream(out, READER2_START, readerCap).Err? && encoder.dict.capacity < 0x1_0000
      ensures old(Pending()) + |p| <= 5900 && encoder.dict.capacity <= 4096 ==>
                err == None && sized && cstate == old(cstate) && start == old(start) && start.props == old(start.props) &&
                encoder.log.start == old(encoder.log.start) && encoder.log.p == old(encoder.log.p) && encoder.log.st == old(encoder.log.st)
    {
      hide Chunked, HashTables.HashTable.Valid, EncoderDict.Valid, ReadStream;
      n, sized := 0, true;
      ChunkedFacts();
      ghost var small := Pending() + |p| <= 5900 && encoder.dict.capacity <= 4096;
      while n < |p|
        invariant Valid() && encoder.dict.Valid() && sized && n <= |p| && encoder.dict.all == old(encoder.dict.all) + p[..n]
        invariant encoder.state == old(encoder.state) || encoder.state == old(start) || fresh(encoder.state)
        invariant start == old(start) || fresh(start)
        invariant encoder.re == old(encoder.re) || fresh(encoder.re)
        invariant small ==> cstate == old(cstate) && start == old(start) && start.props == old(start.props)
        invariant small ==> encoder.log.start == old(encoder.log.start) && encoder.log.p == old(encoder.log.p) && encoder.log.st == old(encoder.log.st)
        decreases |p| - n, Pending()
      {
        ChunkedFacts();
        var m := MAX_UNCOMPRESSED - Written();
        var q := p[n..if n + m < |p| then n + m else |p|];
        var k;
        k, err, sized := PutAndFlush(q, m);
        TakeMore(old(encoder.dict.all), p, n, q, k);
        n := n + k;
        if err.Some? || !sized {
          return;
        }
        ChunkedFacts();
      }
      assert p[..n] == p;
      err := None;
    }

    /** Hands input to the encoder, and flushes the chunk when it is full. */
    method PutAndFlush(q: seq<Byte>, m: int) returns (k: nat, err: Option<Error>, sized: bool)
      requires Valid() && encoder.dict.Valid() && q != [] && |q| <= m == MAX_UNCOMPRESSED - Pending()
      modifies this, encoder, encoder.dict, encoder.dict.buf, encoder.dict.buf.data, encoder.m, encoder.m.t, encoder.m.data, encoder.m.wr, encoder.m.hr,
               encoder.state, encoder.re
      ensures encoder.dict.Valid() && k <= |q| && encoder.dict.all == old(encoder.dict.all) + q[..k]
      ensures err == None && sized ==> Valid() && (k == 0 ==> Pending() < old(Pending()))
      ensures err == None && sized ==> encoder.state == old(encoder.state) || encoder.state == old(start)
      ensures err == None && sized ==> (start == old(start) || fresh(start)) && (encoder.re == old(encoder.re) || fresh(encoder.re))
      ensures err == None || err == Some(NoSpace)
      ensures err.Some? && sized ==> ReadStream(out, READER2_START, readerCap).Err? && encoder.dict.capacity < 0x1_0000
      ensures old(Pending()) + |q| <= 5900 && encoder.dict.capacity <= 4096 ==>
                err == None && sized && k == |q| && cstate == old(cstate) && start == old(start) && start.props == old(start.props) &&
                encoder.log.start == old(encoder.log.start) && encoder.log.p == old(encoder.log.p) && encoder.log.st == old(encoder.log.st)
    {
      hide Chunked, HashTables.HashTable.Valid, EncoderDict.Valid, ReadStream;
      ChunkedFacts();
      var limited;
      k, limited := Put(q);
      ChunkedFacts();
      err, sized := None, true;
      if limited || k == m {
        err, sized := FlushChunk();
        if err == None && sized { ChunkedFacts(); }
      }
    }

    /** Hands input to the encoder. */
    method Put(q: seq<Byte>) returns (k: nat, limited: bool)
      requires Valid() && q != [] && Pending() + |q| <= MAX_UNCOMPRESSED
      modifies encoder`log, encoder.dict, encoder.dict.buf, encoder.dict.buf.data, encoder.m, encoder.m.t, encoder.m.data, encoder.m.wr, encoder.m.hr, encoder.re, encoder.state
      ensures Chunked() && k <= |q| && encoder.dict.all == old(encoder.dict.all) + q[..k]
      ensures if limited then Pending() > 0 && !encoder.Small() else k == |q|
      ensures encoder.log.start == old(encoder.log.start) && encoder.log.p == old(encoder.log.p) && encoder.log.st == old(encoder.log.st)
    {
      hide RingSlice, RecentOf, SameTail, HashTables.HashTable.Valid, EncoderDict.Valid, LogOk, ReadStream, RepsOk, ProbsOk, Reads;
      encoder.dict.Facts();
      ghost var hist0 := encoder.dict.all[..encoder.log.start];
      var err;
      k, err := encoder.Write(q);
      limited := err.Some?;
      encoder.dict.Facts();
      assert encoder.dict.all[..encoder.log.start] == hist0;
    }

    /** Writes out everything given to the writer. */
    method Flush() returns (err: Option<Error>, sized: bool)
      requires Valid()
      modifies this, encoder, encoder.dict, encoder.dict.buf, encoder.m, encoder.m.t, encoder.m.data, encoder.m.wr, encoder.m.hr, encoder.state, encoder.re, start
      ensures encoder.dict.Valid() && encoder.dict.all == old(encoder.dict.all)
      ensures err == None && sized ==> Valid() && Pending() == 0
      ensures err == None && sized ==> encoder.state == old(encoder.state) || encoder.state == old(start) || fresh(encoder.state)
      ensures err == None && sized ==> (start == old(start) || fresh(start)) && (encoder.re == old(encoder.re) || fresh(encoder.re))
      ensures err == None || err == Some(NoSpace)
      ensures err.Some? && sized ==> ReadStream(out, READER2_START, readerCap).Err? && encoder.dict.capacity < 0x1_0000
      ensures old(Stuck()) ==> err.Some? && sized
    {
      hide LzmaSize.Hard, ReadStream, Reads, LogOk, HashTables.HashTable.Valid, EncoderDict.Valid;
      sized := true;
      while Written() > 0
        invariant Valid() && sized && encoder.dict.all == old(encoder.dict.all)
        invariant encoder.state == old(encoder.state) || encoder.state == old(start) || fresh(encoder.state)
        invariant start == old(start) || fresh(start)
        invariant encoder.re == old(encoder.re) || fresh(encoder.re)
        invariant old(Stuck()) ==> Stuck()
        decreases Pending()
      {
        err, sized := FlushChunk();
        if err.Some? || !sized {
          return;
        }
      }
      err := None;
    }

    /**
     Ends the stream. An error of Flush is swallowed: Close reports success although the stream has no end. When the sizes
     fitted, every reader with a large enough dictionary reads back exactly what was written if and only if nothing was
     swallowed; and with a dictionary of at least 64 KiB nothing is.
     */
    method Close() returns (err: Option<Error>, flushed: Option<Error>, sized: bool)
      requires Valid()
      modifies this, encoder, encoder.dict, encoder.dict.buf, encoder.m, encoder.m.t, encoder.m.data, encoder.m.wr, encoder.m.hr, encoder.state, encoder.re, start
      ensures err == None
      ensures sized ==> (flushed == None <==> ReadStream(out, READER2_START, readerCap) == Ok(old(encoder.dict.all)))
      ensures sized && flushed.Some? ==> ReadStream(out, READER2_START, readerCap).Err?
      ensures sized && encoder.dict.capacity >= 0x1_0000 ==> flushed == None
      ensures flushed == None ==> cstate == Stop
      ensures old(Stuck()) ==> flushed.Some? && sized
    {
      hide RingSlice, RecentOf, SameTail, HashTables.HashTable.Valid, EncoderDict.Valid, LogOk, ReadStream, RepsOk, ProbsOk, LzmaSize.Hard;
      var e;
      e, sized := Flush();
      flushed := e;
      if e.Some? {
        return None, flushed, sized;
      }
      if sized {
        EndRead(reader, readerCap);
        assert encoder.dict.all[..encoder.log.start] == encoder.dict.all;
      }
      out := out + [0];
      cstate := Stop;
      return None, flushed, sized;
    }
  }

  /** A writer with a hash chain of its own; nothing has been written yet. */
  method NewWriter2(dictCap: nat, bufSize: nat, size: nat, wordLen: nat, words: seq<RollingHash.Word>, props: Props) returns (w: Writer2)
    requires 1 <= dictCap <= EOS_DIST && bufSize >= MAX_MATCH_LEN && PropsOk(props)
    requires size >= 1 && 1 <= wordLen <= 4 && |words| == 256
    ensures fresh(w) && fresh(w.encoder) && fresh(w.encoder.dict) && fresh(w.encoder.dict.buf) && fresh(w.encoder.dict.buf.data)
    ensures fresh(w.encoder.m) && fresh(w.encoder.m.t) && fresh(w.encoder.m.data) && fresh(w.encoder.m.wr) && fresh(w.encoder.m.hr)
    ensures fresh(w.encoder.state) && fresh(w.encoder.re) && fresh(w.start)
    ensures w.Valid() && w.out == [] && w.readerCap == dictCap == w.encoder.dict.capacity && w.encoder.dict.buf.Cap() == dictCap + bufSize
    ensures w.encoder.dict.all == [] && w.cstate == StartState && w.start.props == props
    ensures w.encoder.log == Log(map[], INITIAL_STATE, 0, [])
  {
    hide HashTables.HashTable.Valid, EncoderDict.Valid, Writer2.Chunked;
    var dict := new EncoderDict(dictCap, bufSize);
    var m := new HashTables.HashTable(dictCap, size, wordLen, words);
    w := new Writer2(dict, m, props, dictCap);
  }

  /**
   A writer whose ring is smaller than an input that does not get shorter: Write and Close report success, and no reader can
   read what was written. LzmaSize.SomeHard gives such an input for every length.
   */
  method LostInput(dictCap: nat, bufSize: nat, size: nat, wordLen: nat, words: seq<RollingHash.Word>, props: Props, p: seq<Byte>)
    returns (w: Writer2, wrote: Option<Error>, closed: Option<Error>)
    requires 1 <= dictCap <= 4096 && bufSize >= MAX_MATCH_LEN && dictCap + bufSize < |p| <= 5900 && PropsOk(props)
    requires size >= 1 && 1 <= wordLen <= 4 && |words| == 256
    requires LzmaSize.Hard(props, dictCap, p, |p| - 1)
    ensures wrote == None && closed == None
    ensures ReadStream(w.out, READER2_START, w.readerCap).Err? && w.readerCap == dictCap
  {
    hide LzmaSize.Hard, ReadStream, Reads, LogOk, HashTables.HashTable.Valid, EncoderDict.Valid;
    w := NewWriter2(dictCap, bufSize, size, wordLen, words, props);
    var n, sized, flushed;
    n, wrote, sized := w.Write(p);
    assert [] + p[..n] == p;
    closed, flushed, sized := w.Close();
  }

  lemma TakeMore(all: seq<Byte>, p: seq<Byte>, n: nat, q: seq<Byte>, k: nat)
    requires n + |q| <= |p| && k <= |q| && q == p[n..n + |q|]
    ensures all + p[..n] + q[..k] == all + p[..n + k]
  {
  }

  // ----- what a flushed chunk does to a reader -----

  lemma RepsGrow(st: LzState, hist: seq<Byte>, more: seq<Byte>, cap: nat)
    requires RepsOk(st, hist, cap) && |hist| <= |more|
    ensures RepsOk(st, more, cap)
  {
  }

  /** The operations lead from one history to the next, and `out` is their stream. */
  ghost predicate ChunkOk(hist0: seq<Byte>, hist1: seq<Byte>, cap: nat, p: Probs, st: LzState, props: Props, ops: seq<Op>, goal: Goal, out: seq<Byte>)
  {
    && ProbsOk(p) && PropsOk(props) && 1 <= cap <= EOS_DIST
    && ValidOps(st, hist0, cap, ops) && RepsOk(st, hist0, cap)
    && goal == StreamGoal(p, st, props, hist0, cap, ops, false) && goal.hist == hist1
    && out == EncodeStream(p, st, props, hist0, cap, ops, false)
  }

  lemma ChunkStart(hist0: seq<Byte>, hist1: seq<Byte>, cap: nat, p: Probs, st: LzState, props: Props, ops: seq<Op>, goal: Goal, out: seq<Byte>)
    requires ChunkOk(hist0, hist1, cap, p, st, props, ops, goal, out)
    ensures hist0 <= hist1 && RepsOk(st, hist1, cap) && out != []
  {
    hide EncodeStream, ProbsOk;
    RepsGrow(st, hist0, hist1, cap);
    CompressedNotEmpty(p, st, props, hist0, cap, ops);
  }

  lemma CompressedNotEmpty(p: Probs, st: LzState, props: Props, hist: seq<Byte>, cap: nat, ops: seq<Op>)
    requires ProbsOk(p) && PropsOk(props) && ValidOps(st, hist, cap, ops)
    ensures EncodeStream(p, st, props, hist, cap, ops, false) != []
  {
    hide NewDecoder, Encode;
    RangeSpec.RoundTrip(OpsEvents(st, props, hist, cap, ops, false), p);
    if Encode(OpsEvents(st, props, hist, cap, ops, false), p) == [] { NotEmpty([]); }
  }

  lemma CompressedFlushed(out: seq<Byte>, r: Reader2, ctype: ChunkType, p: Probs, st: LzState, props: Props, hist: seq<Byte>, all: seq<Byte>, encCap: nat, decCap: nat, ops: seq<Op>, goal: Goal, body: seq<Byte>)
    requires ChunkOk(hist, all, encCap, p, st, props, ops, goal, body) && encCap <= decCap && |all| > |hist|
    requires Reads(out, r, decCap) && Ready(r, ctype, p, st, props, hist) && r.output == hist
    requires |body| <= 0x1_0000 && |all| - |hist| <= 0x20_0000
    ensures body != []
    ensures Reads(out + MarshalHeader(Header(ctype, |all| - |hist| - 1, |body| - 1, props)) + body,
                  Reader2(Normal, all, Some(Carry(goal.p, goal.st, props)), all), decCap)
  {
    hide ReadChunk, EncodeStream, MarshalHeader, ReadStream, ValidOps, RepsOk, ProbsOk, Reads, CompressedChunk, WriteAll, OpsEvents;
    assert Expand(st, hist, encCap, ops) == all;
    var chunk := CompressedChunk(ctype, p, st, props, hist, encCap, ops);
    var r' := Reader2(Normal, all, Some(Carry(goal.p, goal.st, props)), all);
    ChunkParts(ctype, p, st, props, hist, encCap, ops);
    forall tail
      ensures ReadChunk(chunk + tail, r, decCap) == Ok((tail, r'))
    {
      CompressedChunkRead(r, ctype, p, st, props, hist, encCap, decCap, ops, tail);
    }
    ReadsMore(out, r, chunk, r', decCap);
    Associative(out, MarshalHeader(Header(ctype, |all| - |hist| - 1, |body| - 1, props)), body);
  }

  lemma ChunkParts(ctype: ChunkType, p: Probs, st: LzState, props: Props, hist: seq<Byte>, cap: nat, ops: seq<Op>)
    requires ProbsOk(p) && PropsOk(props) && ValidOps(st, hist, cap, ops) && ops != []
    ensures var body, all := EncodeStream(p, st, props, hist, cap, ops, false), Expand(st, hist, cap, ops);
            && body != [] && hist + all[|hist|..] == all
            && CompressedChunk(ctype, p, st, props, hist, cap, ops) == MarshalHeader(Header(ctype, |all| - |hist| - 1, |body| - 1, props)) + body
            && CompressedChunk(ctype, p, st, props, hist, cap, ops) != []
  {
    hide EncodeStream, MarshalHeader, ValidOps;
    CompressedNotEmpty(p, st, props, hist, cap, ops);
  }

  /** A stored chunk that lacks bytes at its end leaves a reader waiting for them. */
  lemma PlainCut(out: seq<Byte>, r: Reader2, ctype: ChunkType, u: nat, bytes: seq<Byte>, cap: nat)
    requires Reads(out, r, cap) && |bytes| < u <= 0x1_0000
    ensures ReadStream(out + MarshalHeader(Header(PlainType(ctype), u - 1, 0, NO_PROPS)) + bytes, READER2_START, cap).Err?
  {
    hide MarshalHeader, ReadHeader, ReadChunk, ReadStream;
    var h := Header(PlainType(ctype), u - 1, 0, NO_PROPS);
    HeaderRoundTrip(h, bytes);
    assert out + MarshalHeader(h) + bytes == out + (MarshalHeader(h) + bytes);
    PlainWaits(MarshalHeader(h) + bytes, r, h, bytes, cap);
  }

  lemma PlainWaits(input: seq<Byte>, r: Reader2, h: Header, rest: seq<Byte>, cap: nat)
    requires ReadHeader(input) == Ok((h, rest)) && IsPlain(h.ctype) && |rest| <= h.uncompressed
    ensures ReadStream(input, r, cap).Err?
  {
    hide ReadHeader;
    assert ReadChunk(input, r, cap).Err?;
  }

  lemma PlainFlushed(out: seq<Byte>, r: Reader2, ctype: ChunkType, p: Probs, st: LzState, props: Props, hist: seq<Byte>, all: seq<Byte>, cap: nat)
    requires Reads(out, r, cap) && Ready(r, ctype, p, st, props, hist) && r.output == hist <= all && ctype == DefaultType(r.cstate)
    requires 1 <= |all| - |hist| <= 0x1_0000
    ensures Next(r.cstate, PlainType(ctype)).Ok? && Next(r.cstate, PlainType(ctype)).value != Stop
    ensures var r' := Reader2(Next(r.cstate, PlainType(ctype)).value, all, r.dec, all);
            && Reads(out + MarshalHeader(Header(PlainType(ctype), |all| - |hist| - 1, 0, NO_PROPS)) + all[|hist|..], r', cap)
            && Ready(r', DefaultType(r'.cstate), p, st, props, all)
  {
    hide ReadChunk, MarshalHeader, ReadStream;
    var t, bytes := PlainType(ctype), all[|hist|..];
    var chunk := PlainChunk(t, bytes);
    var r' := Reader2(Next(r.cstate, t).value, all, r.dec, all);
    assert hist + bytes == all && (hist == [] ==> bytes == all);
    forall tail
      ensures ReadChunk(chunk + tail, r, cap) == Ok((tail, r'))
    {
      PlainChunkRead(r, t, bytes, cap, tail);
    }
    ReadsMore(out, r, chunk, r', cap);
    var head := MarshalHeader(Header(t, |bytes| - 1, 0, NO_PROPS));
    assert out + head + bytes == out + (head + bytes);
  }
}
