/** The LZMA decoder: reads operations, applies them to its dictionary, and hands out the bytes. */
module LzmaDecoder {
  import opened Bits
  import opened Results
  import opened Cells
  import opened RangeCoder
  import opened RangeSpec
  import opened CodecSpec
  import opened OpSpec
  import opened LzmaBuffer
  import opened LzmaCoder

  datatype Status = More | Eof | Fail(error: Error)

  /** The window bounds what one call of decompress adds, and it always fills it. */
  lemma {:induction false} DecompressWindow(d: Decoding, props: Props, cap: nat, room: nat)
    requires PropsOk(props)
    ensures var o := OpSpec.Decompress(d, props, cap, room);
            !o.Failed? ==>
              && d.hist <= o.d.hist && |o.d.hist| - |d.hist| <= room
              && o.d.start == d.start && o.d.size == d.size
              && (o.AtEof? ==> o.d.eos)
              && (o.Full? ==> !o.d.eos && |o.d.hist| - |d.hist| > room - MAX_MATCH_LEN)
    decreases room
  {
    hide OpSpec.ReadOp, ContextOf, CopyBack, OpSpec.AtSize, OpSpec.AtMarker;
    if !d.eos && room >= MAX_MATCH_LEN {
      var x := OpSpec.ReadOp(d.r, d.st, props, ContextOf(d.st, d.hist, cap));
      if x.Ok? && x.value.0.None? { MarkerWindow(d.(r := x.value.2, st := x.value.1, eos := true)); }
      if x.Ok? && x.value.0.Some? {
        var op := x.value.0.value;
        if op.Literal? || (0 < op.distance <= DictLen(d.hist, cap) && 0 < op.n <= MAX_MATCH_LEN) {
          var d' := Decoding(x.value.2, x.value.1, OpSpec.Apply(d.hist, op), d.start, d.size, false);
          SizeWindow(d'.(eos := true), props, cap);
          DecompressWindow(d', props, cap, room - OpLen(op));
        }
      }
    }
  }

  lemma SizeWindow(d: Decoding, props: Props, cap: nat)
    requires PropsOk(props)
    ensures var o := OpSpec.AtSize(d, props, cap);
            o.Failed? || (o.AtEof? && o.d.hist == d.hist && o.d.start == d.start && o.d.size == d.size && o.d.eos == d.eos)
  {
    hide OpSpec.ReadOp, ContextOf;
  }

  lemma MarkerWindow(d: Decoding)
    ensures var o := OpSpec.AtMarker(d); o.Failed? || o == AtEof(d)
  {
  }

  class Decoder {
    const dict: DecoderDict
    var state: State
    var rd: RangeDecoder
    var start: nat
    var size: int
    var eos: bool

    ghost predicate Valid()
      reads this, dict, dict.buf, dict.buf.data, state, rd
    {
      dict.Valid() && dict.buf.Cap() >= MAX_MATCH_LEN && state.Valid()
    }

    ghost function Model(): Decoding
      requires state.Valid()
      reads this, dict, state, rd
    {
      Decoding(R(rd, state), state.St(), dict.hist, start, size, eos)
    }

    ghost function Cap(): nat
      requires dict.buf.Valid()
      reads dict.buf
    {
      dict.buf.Cap()
    }

    /** A decoder on an opened range decoder; the stream starts at the current end of the dictionary. */
    constructor (rd_: RangeDecoder, state_: State, dict_: DecoderDict, size_: int)
      requires dict_.Valid() && dict_.buf.Cap() >= MAX_MATCH_LEN && state_.Valid()
      ensures Valid() && rd == rd_ && state == state_ && dict == dict_
      ensures Model() == Decoding(R(rd_, state_), state_.St(), dict_.hist, |dict_.hist|, size_, false)
    {
      rd, state, dict, size := rd_, state_, dict_, size_;
      start, eos := dict_.head, false;
    }

    method DecodeLiteral() returns (r: Result<Byte>)
      requires Valid()
      modifies rd, state`probs
      ensures Valid()
      ensures var ctx := ContextOf(old(state.St()), dict.hist, Cap());
              match CodecSpec.DecodeLiteral(old(R(rd, state)), state.num, ctx.matchByte, LitState(state.props, ctx))
              case Ok((b, r')) => r == Ok(b) && R(rd, state) == r'
              case Err(e) => r == Err(e)
    {
      hide CodecSpec.DecodeLiteral, LitState, RingSlice, RecentOf, SameTail, OpSpec.ByteAt;
      assert dict.buf.Valid();
      ghost var ctx := ContextOf(state.St(), dict.hist, Cap());
      var prev := dict.ByteAt(1);
      var matchByte := dict.ByteAt(state.rep[0] + 1);
      assert ctx == Context(dict.head, prev, matchByte);
      var litState := LitState(state.props, Context(dict.head, prev, matchByte));
      LitStateSmall(state.props, ctx);
      r := LzmaCoder.DecodeLiteral(rd, state, state.num, matchByte, litState);
    }

    /** The next operation, or None for the end-of-stream marker. */
    method ReadOp() returns (r: Result<Option<Op>>)
      requires Valid()
      modifies rd, state
      ensures Valid() && state.props == old(state.props)
      ensures match OpSpec.ReadOp(old(R(rd, state)), old(state.St()), state.props, ContextOf(old(state.St()), dict.hist, Cap()))
              case Ok((op, st, r')) => r == Ok(op) && state.St() == st && R(rd, state) == r'
              case Err(e) => r == Err(e)
    {
      hide ReadModel, CodecSpec.DecodeLiteral, LitState, RingSlice, RecentOf, SameTail, ContextOf;
      var posState := PosState(state.props, dict.head);
      PosStateSmall(state.props, dict.head);
      var b :- DecodeCell(rd, state, IsMatch(State2(state.num, posState)));
      if b == 0 {
        var c :- DecodeLiteral();
        state.UpdateStateLiteral();
        return Ok(Some(Literal(c)));
      }
      b :- DecodeCell(rd, state, IsRep(state.num));
      if b == 0 {
        r := ReadSimpleMatch(posState);
      } else {
        r := ReadRep(posState);
      }
    }

    method ReadSimpleMatch(posState: nat) returns (r: Result<Option<Op>>)
      requires state.Valid() && posState < 16
      modifies rd, state
      ensures state.Valid() && state.props == old(state.props)
      ensures match OpSpec.ReadSimpleMatch(old(R(rd, state)), old(state.St()), posState)
              case Ok((op, st, r')) => r == Ok(op) && state.St() == st && R(rd, state) == r'
              case Err(e) => r == Err(e)
    {
      hide CodecSpec.DecodeLen, CodecSpec.DecodeDist;
      state.rep := [state.rep[0], state.rep[0], state.rep[1], state.rep[2]];
      state.UpdateStateMatch();
      var n :- LzmaCoder.DecodeLen(rd, state, false, posState);
      var dist :- LzmaCoder.DecodeDist(rd, state, n);
      state.rep := state.rep[0 := dist];
      if dist == EOS_DIST {
        return Ok(None);
      }
      return Ok(Some(Match(dist + 1, n + MIN_MATCH_LEN)));
    }

    method ReadRep(posState: nat) returns (r: Result<Option<Op>>)
      requires state.Valid() && posState < 16
      modifies rd, state
      ensures state.Valid() && state.props == old(state.props)
      ensures match OpSpec.ReadRep(old(R(rd, state)), old(state.St()), posState)
              case Ok((op, st, r')) => r == Ok(op) && state.St() == st && R(rd, state) == r'
              case Err(e) => r == Err(e)
    {
      hide ReadModel, CodecSpec.DecodeLen, ReadRepLen, FarRep;
      var num := state.num;
      var b :- DecodeCell(rd, state, IsRepG0(num));
      if b == 0 {
        b :- DecodeCell(rd, state, IsRepG0Long(State2(num, posState)));
        if b == 0 {
          var dist := state.rep[0];
          state.UpdateStateShortRep();
          return Ok(Some(Match(dist + 1, 1)));
        }
      } else {
        var moved :- ReadFarRep();
      }
      r := ReadLen(posState);
    }

    /** Moves one of the three older distances to the front. */
    method ReadFarRep() returns (r: Result<()>)
      requires state.Valid()
      modifies rd, state`probs, state`rep
      ensures state.Valid()
      ensures match FarRep(old(R(rd, state)), old(state.St()))
              case Ok((st, r')) => r.Ok? && state.St() == st && R(rd, state) == r'
              case Err(e) => r == Err(e)
    {
      hide ReadModel;
      var num := state.num;
      var b :- DecodeCell(rd, state, IsRepG1(num));
      var dist := state.rep[1];
      if b != 0 {
        b :- DecodeCell(rd, state, IsRepG2(num));
        if b == 0 {
          dist := state.rep[2];
        } else {
          dist := state.rep[3];
          state.rep := state.rep[3 := state.rep[2]];
        }
        state.rep := state.rep[2 := state.rep[1]];
      }
      state.rep := state.rep[1 := state.rep[0]];
      state.rep := state.rep[0 := dist];
      r := Ok(());
    }

    method ReadLen(posState: nat) returns (r: Result<Option<Op>>)
      requires state.Valid() && posState < 16
      modifies rd, state
      ensures state.Valid() && state.props == old(state.props)
      ensures match ReadRepLen(old(R(rd, state)), old(state.St()), posState)
              case Ok((op, st, r')) => r == Ok(op) && state.St() == st && R(rd, state) == r'
              case Err(e) => r == Err(e)
    {
      hide ReadModel, CodecSpec.DecodeLen;
      var dist := state.rep[0];
      var n :- LzmaCoder.DecodeLen(rd, state, true, posState);
      state.UpdateStateRep();
      return Ok(Some(Match(dist + 1, n + MIN_MATCH_LEN)));
    }

    method Apply(op: Op) returns (err: Option<Error>)
      requires dict.Valid() && OpLen(op) <= MAX_MATCH_LEN ==> OpLen(op) <= dict.buf.Available()
      requires dict.Valid() && dict.buf.Available() >= 1
      modifies dict, dict.buf, dict.buf.data
      ensures dict.Valid()
      ensures err == if op.Match? && !(0 < op.distance <= DictLen(old(dict.hist), Cap())) then Some(DistanceOutOfRange)
                     else if op.Match? && !(0 < op.n <= MAX_MATCH_LEN) then Some(LengthOutOfRange)
                     else None
      ensures err == None ==> dict.hist == OpSpec.Apply(old(dict.hist), op)
      ensures err == None ==> dict.buf.Contents() == old(dict.buf.Contents()) + dict.hist[|old(dict.hist)|..]
    {
      hide RingSlice, RecentOf, SameTail, CopyBack;
      match op
      case Match(distance, n) => err := dict.WriteMatch(distance, n);
      case Literal(b) =>
        err := dict.WriteByte(b);
        assert (old(dict.hist) + [b])[|old(dict.hist)|..] == [b];
    }

    /** Decodes operations while a whole match fits the free part of the window. */
    method Decompress() returns (s: Status)
      requires Valid()
      modifies this`eos, rd, state, dict, dict.buf, dict.buf.data
      ensures Valid() && state.props == old(state.props)
      ensures match OpSpec.Decompress(old(Model()), state.props, Cap(), old(dict.buf.Available()))
              case Full(d) => s == More && Model() == d
              case AtEof(d) => s == Eof && Model() == d
              case Failed(e) => s == Fail(e)
      ensures !s.Fail? ==> old(dict.hist) <= dict.hist && dict.buf.Contents() == old(dict.buf.Contents()) + dict.hist[|old(dict.hist)|..]
    {
      hide OpSpec.ReadOp, ContextOf, RingSlice, RecentOf, SameTail, CopyBack, OpSpec.Apply, OpSpec.Decompress;
      EofStays(Model(), state.props, Cap(), dict.buf.Available());
      if eos {
        return Eof;
      }
      ghost var added: seq<Byte> := [];
      while dict.buf.Available() >= MAX_MATCH_LEN
        invariant Valid() && state.props == old(state.props) && !eos
        invariant OpSpec.Decompress(Model(), state.props, Cap(), dict.buf.Available()) ==
                  OpSpec.Decompress(old(Model()), state.props, Cap(), old(dict.buf.Available()))
        invariant dict.hist == old(dict.hist) + added && dict.buf.Contents() == old(dict.buf.Contents()) + added
        decreases dict.buf.Available()
      {
        ghost var before := dict.hist;
        var stop := DecompressOp();
        if stop == None || stop == Some(Eof) {
          ghost var chunk := dict.hist[|before|..];
          assert dict.hist == before + chunk;
          Associative(old(dict.hist), added, chunk);
          Associative(old(dict.buf.Contents()), added, chunk);
          added := added + chunk;
        }
        if stop.Some? {
          return stop.value;
        }
      }
      WindowFull(Model(), state.props, Cap(), dict.buf.Available());
      return More;
    }

    /** One operation of the loop; `stop` says how it ends the call, if it does. */
    method DecompressOp() returns (stop: Option<Status>)
      requires Valid() && !eos && dict.buf.Available() >= MAX_MATCH_LEN
      modifies this`eos, rd, state, dict, dict.buf, dict.buf.data
      ensures Valid() && state.props == old(state.props)
      ensures stop == None ==> !eos && dict.buf.Available() < old(dict.buf.Available())
      ensures stop == None ==> OpSpec.Decompress(Model(), state.props, Cap(), dict.buf.Available()) ==
                               OpSpec.Decompress(old(Model()), state.props, Cap(), old(dict.buf.Available()))
      ensures stop.Some? ==>
                match OpSpec.Decompress(old(Model()), state.props, Cap(), old(dict.buf.Available()))
                case Full(_) => false
                case AtEof(d) => stop == Some(Eof) && Model() == d
                case Failed(e) => stop == Some(Fail(e))
      ensures stop == None || stop == Some(Eof) ==>
                old(dict.hist) <= dict.hist && dict.buf.Contents() == old(dict.buf.Contents()) + dict.hist[|old(dict.hist)|..]
    {
      hide OpSpec.ReadOp, ContextOf, RingSlice, RecentOf, SameTail, CopyBack, OpSpec.Apply, OpSpec.AtSize, OpSpec.AtMarker, OpSpec.Decompress;
      DecompressOnce(Model(), state.props, Cap(), dict.buf.Available());
      var x := ReadOp();
      if x.Err? {
        eos := x.error == UnexpectedEof;
        return Some(Fail(x.error));
      }
      var s;
      if x.value == None {
        eos := true;
        s := AtMarker();
        assert dict.hist[|old(dict.hist)|..] == [];
        return Some(s);
      }
      var err := Apply(x.value.value);
      if err.Some? {
        return Some(Fail(err.value));
      }
      if size >= 0 && dict.head - start >= size {
        eos := true;
        s := AtSize();
        return Some(s);
      }
      return None;
    }

    method AtMarker() returns (s: Status)
      requires Valid()
      ensures match OpSpec.AtMarker(Model())
              case Full(_) => false
              case AtEof(d) => s == Eof && Model() == d
              case Failed(e) => s == Fail(e)
    {
      if rd.code != 0 {
        return Fail(DataAfterEos);
      }
      if size >= 0 && size != dict.head - start {
        return Fail(WrongSize);
      }
      return Eof;
    }

    method AtSize() returns (s: Status)
      requires Valid()
      modifies rd, state
      ensures Valid() && state.props == old(state.props)
      ensures match OpSpec.AtSize(old(Model()), state.props, Cap())
              case Full(_) => false
              case AtEof(d) => s == Eof && Model() == d
              case Failed(e) => s == Fail(e)
    {
      hide OpSpec.ReadOp, ContextOf;
      if dict.head - start > size {
        return Fail(WrongSize);
      }
      if rd.code != 0 {
        var x := ReadOp();
        if x.Err? {
          return Fail(x.error);
        }
        if x.value != None {
          return Fail(WrongSize);
        }
      }
      return Eof;
    }

    /** Somewhere on a stream towards `goal`: still on track, or done. */
    ghost predicate Reading(encCap: nat, ops: seq<Op>, marker: bool, goal: Goal)
      requires Valid()
      reads this, dict, dict.buf, dict.buf.data, state, rd
    {
      if eos then dict.hist == goal.hist && (!marker ==> state.St() == goal.st && state.probs == goal.p && rd.rest == [])
      else exists k: nat :: k <= |ops| && Towards(Model(), state.props, encCap, Cap(), ops[k..], marker, goal)
    }

    method ReadingDecompress(encCap: nat, ghost ops: seq<Op>, marker: bool, ghost goal: Goal) returns (s: Status)
      requires Valid() && Reading(encCap, ops, marker, goal)
      modifies this`eos, rd, state, dict, dict.buf, dict.buf.data
      ensures Valid() && state.props == old(state.props)
      ensures !s.Fail? && (s == Eof <==> eos) && Reading(encCap, ops, marker, goal)
      ensures s == More ==> |dict.hist| - |old(dict.hist)| > old(dict.buf.Available()) - MAX_MATCH_LEN
      ensures old(dict.hist) <= dict.hist && dict.buf.Contents() == old(dict.buf.Contents()) + dict.hist[|old(dict.hist)|..]
    {
      hide RingSlice, RecentOf, SameTail, Towards, OpSpec.Decompress;
      ghost var d, room := Model(), dict.buf.Available();
      DecompressWindow(d, state.props, Cap(), room);
      EofStays(d, state.props, Cap(), room);
      if !eos {
        ghost var k: nat :| k <= |ops| && Towards(d, state.props, encCap, Cap(), ops[k..], marker, goal);
        DecompressOnTrack(d, state.props, encCap, Cap(), ops[k..], marker, room, goal);
        TailOfTail(OpSpec.Decompress(d, state.props, Cap(), room), d, state.props, encCap, Cap(), ops, k, marker, room, goal);
      }
      s := Decompress();
    }

    /** Fills a buffer of `len` bytes from a stream towards `goal`; it comes back short only when everything was delivered. */
    method Read(len: nat, encCap: nat, ghost ops: seq<Op>, marker: bool, ghost goal: Goal) returns (p: seq<Byte>, s: Status)
      requires Valid() && Reading(encCap, ops, marker, goal)
      modifies this`eos, rd, state, dict, dict.buf, dict.buf.data
      ensures Valid() && state.props == old(state.props) && Reading(encCap, ops, marker, goal)
      ensures old(dict.hist) <= dict.hist
      ensures p + dict.buf.Contents() == old(dict.buf.Contents()) + dict.hist[|old(dict.hist)|..]
      ensures s == More || s == Eof
      ensures s == More ==> |p| == len
      ensures s == Eof ==> dict.hist == goal.hist && (len > 0 ==> dict.buf.Contents() == [])
    {
      hide RingSlice, RecentOf, SameTail, Towards, Reading;
      p := [];
      ghost var added: seq<Byte> := [];
      while true
        invariant Valid() && state.props == old(state.props) && Reading(encCap, ops, marker, goal)
        invariant (|p| < len || p == []) && dict.hist == old(dict.hist) + added
        invariant p + dict.buf.Contents() == old(dict.buf.Contents()) + added
        decreases len - |p|, if dict.buf.Buffered() > 0 || eos then 0 else 1
      {
        var q := Drain(len - |p|, encCap, ops, marker, goal);
        Associative(p, q, dict.buf.Contents());
        assert dict.hist[|old(dict.hist)|..] == added;
        if q == [] && eos {
          ReadingDone(encCap, ops, marker, goal);
          return p, Eof;
        }
        p := p + q;
        if |p| >= len {
          return p, More;
        }
        ghost var hist := dict.hist;
        assert dict.buf.Contents() == [] && p == p + [];
        s := ReadingDecompress(encCap, ops, marker, goal);
        ghost var chunk := dict.hist[|hist|..];
        assert [] + chunk == chunk && dict.hist == hist + chunk;
        Associative(old(dict.hist), added, chunk);
        Associative(old(dict.buf.Contents()), added, chunk);
        added := added + chunk;
      }
    }

    /** Reads to the end, `chunk` bytes at a time. */
    method ReadAll(chunk: nat, encCap: nat, ghost ops: seq<Op>, marker: bool, ghost goal: Goal) returns (p: seq<Byte>)
      requires Valid() && Reading(encCap, ops, marker, goal) && chunk >= 1
      modifies this`eos, rd, state, dict, dict.buf, dict.buf.data
      ensures Valid() && dict.hist == goal.hist
      ensures old(dict.hist) <= goal.hist && p == old(dict.buf.Contents()) + goal.hist[|old(dict.hist)|..]
    {
      hide RingSlice, RecentOf, SameTail, Reading;
      p := [];
      var s := More;
      ghost var added: seq<Byte> := [];
      HistIsFront(encCap, ops, marker, goal);
      while s == More
        invariant Valid() && state.props == old(state.props) && Reading(encCap, ops, marker, goal) && (s == More || s == Eof)
        invariant dict.hist == old(dict.hist) + added && dict.hist <= goal.hist
        invariant p + dict.buf.Contents() == old(dict.buf.Contents()) + added
        invariant s == Eof ==> dict.hist == goal.hist && dict.buf.Contents() == []
        decreases |goal.hist| + |old(dict.buf.Contents())| - |p|, if s == More then 1 else 0
      {
        ghost var hist, held := dict.hist, dict.buf.Contents();
        var q;
        q, s := Read(chunk, encCap, ops, marker, goal);
        HistIsFront(encCap, ops, marker, goal);
        ghost var more := dict.hist[|hist|..];
        assert dict.hist == hist + more;
        Associative(old(dict.hist), added, more);
        Associative(p, held, more);
        Associative(old(dict.buf.Contents()), added, more);
        Associative(p, q, dict.buf.Contents());
        added := added + more;
        p := p + q;
      }
      assert goal.hist[|old(dict.hist)|..] == added;
    }

    lemma HistIsFront(encCap: nat, ops: seq<Op>, marker: bool, goal: Goal)
      requires Valid() && Reading(encCap, ops, marker, goal)
      ensures dict.hist <= goal.hist
    {
      hide RingSlice, RecentOf, SameTail, OnTrack;
    }

    /** Takes what the dictionary holds; the stream itself is untouched. */
    method Drain(k: nat, encCap: nat, ghost ops: seq<Op>, marker: bool, ghost goal: Goal) returns (q: seq<Byte>)
      requires Valid() && Reading(encCap, ops, marker, goal)
      modifies dict.buf`rear
      ensures Valid() && Reading(encCap, ops, marker, goal)
      ensures q + dict.buf.Contents() == old(dict.buf.Contents())
      ensures |q| == if k <= old(dict.buf.Buffered()) then k else old(dict.buf.Buffered())
    {
      hide RingSlice, RecentOf, SameTail, Towards;
      q := dict.Read(k);
    }

    /** Opened on the bytes of an encoder in the same state, the decoder is reading towards the encoder's end. */
    lemma Opened(p: Probs, encCap: nat, ops: seq<Op>, marker: bool)
      requires Valid() && ProbsOk(p) && ValidOps(state.St(), dict.hist, encCap, ops)
      requires 1 <= encCap <= EOS_DIST && RepsOk(state.St(), dict.hist, encCap)
      requires DictSuits(encCap, Cap(), |Expand(state.St(), dict.hist, encCap, ops)|)
      requires start == |dict.hist| && !eos && state.probs == p
      requires NewDecoder(EncodeStream(p, state.St(), state.props, dict.hist, encCap, ops, marker)) == Ok(rd.Model())
      requires size < 0 || size == |Expand(state.St(), dict.hist, encCap, ops)| - start
      requires (size < 0 ==> marker) && (ops == [] ==> marker)
      ensures Reading(encCap, ops, marker, StreamGoal(p, state.St(), state.props, dict.hist, encCap, ops, marker))
    {
      hide Towards, RingSlice, RecentOf, SameTail;
      StreamOnTrack(p, state.St(), state.props, dict.hist, encCap, Cap(), ops, marker, size);
      assert ops[0..] == ops;
    }

    lemma ReadingDone(encCap: nat, ops: seq<Op>, marker: bool, goal: Goal)
      requires Valid() && Reading(encCap, ops, marker, goal) && eos
      ensures dict.hist == goal.hist
    {
    }
  }

  /** A decoder on the bytes of a stream, which may not be one. */
  method OpenDecoder(input: seq<Byte>, state: State, dict: DecoderDict, size: int) returns (r: Result<Decoder>)
    requires dict.Valid() && dict.buf.Cap() >= MAX_MATCH_LEN && state.Valid()
    ensures match NewDecoder(input)
            case Ok(d) => r.Ok? && r.value.Valid() && r.value.state == state && r.value.dict == dict && fresh(r.value) && fresh(r.value.rd) &&
                          r.value.Model() == Decoding(Reader(d, state.probs), state.St(), dict.hist, |dict.hist|, size, false)
            case Err(e) => r == Err(e)
  {
    hide RingSlice, RecentOf, SameTail, NewDecoder;
    var rd := new RangeDecoder(input);
    var err := rd.Open();
    if err.Some? {
      return Err(err.value);
    }
    var d := new Decoder(rd, state, dict, size);
    return Ok(d);
  }

  /** What one operation makes of the rest. */
  lemma DecompressOnce(d: Decoding, props: Props, cap: nat, room: nat)
    requires PropsOk(props) && !d.eos && room >= MAX_MATCH_LEN
    ensures var o := OpSpec.Decompress(d, props, cap, room);
            match OpSpec.ReadOp(d.r, d.st, props, ContextOf(d.st, d.hist, cap))
            case Err(e) => o == Failed(e)
            case Ok((None, st, r)) => o == OpSpec.AtMarker(d.(r := r, st := st, eos := true))
            case Ok((Some(op), st, r)) =>
              if op.Match? && !(0 < op.distance <= DictLen(d.hist, cap)) then o == Failed(DistanceOutOfRange)
              else if op.Match? && !(0 < op.n <= MAX_MATCH_LEN) then o == Failed(LengthOutOfRange)
              else
                var d' := Decoding(r, st, OpSpec.Apply(d.hist, op), d.start, d.size, false);
                o == if d.size >= 0 && Decompressed(d') >= d.size then OpSpec.AtSize(d'.(eos := true), props, cap)
                     else OpSpec.Decompress(d', props, cap, room - OpLen(op))
  {
    hide OpSpec.ReadOp, ContextOf, OpSpec.Apply, OpSpec.AtSize, OpSpec.AtMarker;
  }

  lemma WindowFull(d: Decoding, props: Props, cap: nat, room: nat)
    requires PropsOk(props) && room < MAX_MATCH_LEN && !d.eos
    ensures OpSpec.Decompress(d, props, cap, room) == Full(d)
  {
  }

  lemma EofStays(d: Decoding, props: Props, cap: nat, room: nat)
    requires PropsOk(props)
    ensures d.eos ==> OpSpec.Decompress(d, props, cap, room) == AtEof(d)
  {
  }

  lemma TailOfTail(o: Outcome, d: Decoding, props: Props, encCap: nat, cap: nat, ops: seq<Op>, k: nat, marker: bool, room: nat, goal: Goal)
    requires PropsOk(props) && k <= |ops| && Faithful(o, d, props, encCap, cap, ops[k..], marker, room, goal)
    ensures o.Full? ==> exists j: nat :: j <= |ops| && Towards(o.d, props, encCap, cap, ops[j..], marker, goal)
  {
    if o.Full? {
      var j: nat :| j <= |ops[k..]| && Towards(o.d, props, encCap, cap, ops[k..][j..], marker, goal);
      assert ops[k..][j..] == ops[k + j..];
    }
  }
}
