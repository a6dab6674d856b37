/** The headers of LZMA2 chunks byte by byte, and the lists of chunks a reader accepts. */
module ChunkFacts {
  import opened Bits
  import opened Results
  import opened OpSpec
  import opened Lzma2Spec
  import RangeFacts

  // ----- headers -----

  /** The properties byte: pb counts 45, lp 9 and lc 1. */
  lemma PropsByte(p: Props, q: Props)
    requires PropsOk(p) && PropsOk(q)
    ensures PropsCode(p) / 45 == PropsCode(q) / 45 <==> p.pb == q.pb
    ensures PropsCode(p) % 9 == PropsCode(q) % 9 <==> p.lc == q.lc
    ensures PropsCode(Props(3, 0, 2)) == 93 && PropsCode(Props(0, 2, 0)) == 18 && PropsCode(Props(8, 4, 4)) == 224
  {
    DigitsOfCode(p.pb, p.lp, p.lc);
    DigitsOfCode(q.pb, q.lp, q.lc);
  }

  /** The first byte of a header: its three top bits, or all of it for the end and stored chunks. */
  lemma ControlByte(h: Header)
    requires PropsOk(h.props)
    ensures var b := MarshalHeader(h)[0];
            match h.ctype
            case CEOS => b == 0x00
            case CUD => b == 0x01
            case CU => b == 0x02
            case CL => 0x80 <= b < 0xa0
            case CLR => 0xa0 <= b < 0xc0
            case CLRN => 0xc0 <= b < 0xe0
            case CLRND => 0xe0 <= b <= 0xff
  {
  }

  /** Sizes are one less than the chunk's, highest byte first; those of a coded chunk begin in the first byte. */
  lemma SizeBytes(h: Header)
    requires PropsOk(h.props) && h.ctype != CEOS
    ensures var d := MarshalHeader(h);
            if IsPlain(h.ctype) then |d| == 3 && Big(d[1..3]) == h.uncompressed % 0x1_0000
            else
              && |d| == (if h.ctype == CL || h.ctype == CLR then 5 else 6)
              && (d[0] as int % 32) * 0x1_0000 + Big(d[1..3]) == h.uncompressed % 0x20_0000
              && Big(d[3..5]) == h.compressed % 0x1_0000
              && (|d| == 6 ==> d[5] == 45 * h.props.pb + 9 * h.props.lp + h.props.lc)
  {
    hide Big;
    var d := MarshalHeader(h);
    BigOfTwo(d[1..3]);
    Word16Read(h.uncompressed);
    PropsRoundTrip(h.props);
    if !IsPlain(h.ctype) {
      BigOfTwo(d[3..5]);
      Word16Read(h.compressed);
      HighPart(h.uncompressed);
    }
  }

  lemma BigOfTwo(s: seq<Byte>)
    requires |s| == 2
    ensures Big(s) == s[0] as int * 256 + s[1]
  {
    hide Big;
    BigSnoc([s[0]], s[1]);
    BigSnoc([], s[0]);
    assert [s[0]] + [s[1]] == s && [] + [s[0]] == [s[0]];
    RangeFacts.BigNone();
  }

  lemma HighPart(u: nat)
    ensures (u / 0x1_0000 % 256 % 32) * 0x1_0000 + u % 0x1_0000 == u % 0x20_0000
  {
    var q := u / 0x1_0000;
    Mod32(q);
    assert u == q * 0x1_0000 + u % 0x1_0000;
    assert q == q / 32 * 32 + q % 32;
    assert u == q / 32 * 0x20_0000 + (q % 32 * 0x1_0000 + u % 0x1_0000);
  }

  // ----- lists of chunks -----

  /** The state behind a list of chunks. */
  function Behind(ts: seq<ChunkType>): Result<ChunkState>
  {
    if ts == [] then Ok(StartState)
    else
      var s :- Behind(ts[..|ts| - 1]);
      Next(s, ts[|ts| - 1])
  }

  /** Properties have been given since the dictionary was last reset by a stored chunk. */
  predicate Given(ts: seq<ChunkType>)
  {
    ts != [] && var t := ts[|ts| - 1]; t == CLRN || t == CLRND || (t != CUD && Given(ts[..|ts| - 1]))
  }

  /** A reset of the dictionary comes first, the end last, and no chunk goes on with properties nobody gave. */
  predicate Proper(ts: seq<ChunkType>)
  {
    && (ts != [] ==> ts[0] == CEOS || ts[0] == CUD || ts[0] == CLRND)
    && (forall k :: 0 <= k < |ts| && ts[k] == CEOS ==> k == |ts| - 1)
    && (forall k :: 0 <= k < |ts| && (ts[k] == CL || ts[k] == CLR) ==> Given(ts[..k]))
  }

  /** The reader accepts just these lists. */
  lemma {:induction false} AcceptedIff(ts: seq<ChunkType>)
    ensures Behind(ts).Ok? <==> Proper(ts)
    ensures Behind(ts).Ok? ==> (Behind(ts).value == StartState <==> ts == []) && (Behind(ts).value == Stop <==> ts != [] && ts[|ts| - 1] == CEOS)
    ensures Behind(ts).Ok? ==> (Behind(ts).value in {Normal, Plain} ==> Given(ts)) && (Behind(ts).value == NeedReset ==> !Given(ts))
    decreases |ts|
  {
    if ts != [] {
      var front, t := ts[..|ts| - 1], ts[|ts| - 1];
      AcceptedIff(front);
      forall k | 0 <= k < |front|
        ensures front[k] == ts[k] && front[..k] == ts[..k]
      {
      }
      if Proper(ts) { assert Proper(front); }
    }
  }

  /** The type a writer takes by default is one the reader accepts, and so is storing the chunk instead. */
  lemma DefaultAccepted(s: ChunkState)
    requires s != Stop
    ensures Next(s, DefaultType(s)).Ok? && Next(s, PlainType(DefaultType(s))).Ok?
    ensures DefaultType(s) == if s == StartState then CLRND else if s == NeedReset then CLRN else CL
  {
  }
}
