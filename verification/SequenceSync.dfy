/** Decoding and executing the sequences of a block in one pass. */
module SequenceSync {
  import opened Bits
  import opened Results
  import opened BitStream
  import opened FseCoder
  import opened SequenceSpec
  import opened SequenceDecoder
  import opened SequenceBlock
  import opened SequenceExec

  // ----- one match, appended -----

  /** A whole match behind an output that grows. */
  method CopyAppend(dict: seq<Byte>, hist: seq<Byte>, window: nat, out0: seq<Byte>, mo0: nat, ml0: nat) returns (err: Option<Error>, out: seq<Byte>)
    requires mo0 == 0 ==> ml0 == 0
    ensures err == None <==> Reaches(|dict|, |hist| + |out0|, window, mo0)
    ensures err == None ==> (ml0 > 0 ==> mo0 <= |dict + hist| + |out0|) && out == CopyMatch(dict + hist, out0, mo0, ml0)
  {
    hide SameMatch, CopyMatch;
    CopyNothing(dict + hist, out0, mo0);
    ghost var before := dict + hist;
    out := out0;
    var mo, ml := mo0, ml0;
    SameMatchMaybe(before, out0, ml0, mo0);
    if mo > |out| + |hist| || mo > window {
      if |dict| == 0 {
        return Some(DistanceOutOfRange), out;
      }
      var dictO := |dict| - (mo - (|out| + |hist|));
      if dictO < 0 || dictO >= |dict| {
        return Some(DistanceOutOfRange), out;
      }
      out, mo, ml := AppendFromDict(dict, hist, out, mo, ml);
    }
    if mo > |out| {
      ghost var was, left := out, ml;
      out, ml := AppendFromHistory(dict, hist, out, mo, ml);
      SameMatchTwice(before, out0, ml0, was, left, out, ml, mo0);
    }
    if ml > 0 {
      ghost var was := out;
      out := AppendInside(before, out, mo, ml);
      SameMatchTwice(before, out0, ml0, was, ml, out, 0, mo0);
    }
    if mo0 > 0 { MatchDone(before, out0, ml0, out, mo0); }
    return None, out;
  }

  /** The part of a match that lies in the dictionary; when that is all of it nothing is left to copy. */
  method AppendFromDict(dict: seq<Byte>, hist: seq<Byte>, out0: seq<Byte>, mo0: nat, ml0: nat) returns (out: seq<Byte>, mo: nat, ml: nat)
    requires |out0| + |hist| < mo0 <= |out0| + |hist| + |dict|
    ensures |out| + ml == |out0| + ml0 && ml <= ml0 && SameMatch(dict + hist, out0, ml0, out, ml, mo0)
    ensures if ml > 0 then mo == mo0 == |out| + |hist| else mo == 0
  {
    hide SameMatch;
    var dictO := |dict| - (mo0 - (|out0| + |hist|));
    var end := dictO + ml0;
    ghost var before := dict + hist;
    if end > |dict| {
      assert dict[dictO..] == (before + out0)[dictO..|dict|];
      StretchCopied(before, out0, dict[dictO..], mo0, ml0);
      return out0 + dict[dictO..], mo0, ml0 - (|dict| - dictO);
    } else {
      assert dict[dictO..end] == (before + out0)[dictO..end];
      StretchCopied(before, out0, dict[dictO..end], mo0, ml0);
      return out0 + dict[dictO..end], 0, 0;
    }
  }

  /** The part of a match that lies in the history. */
  method AppendFromHistory(ghost dict: seq<Byte>, hist: seq<Byte>, out0: seq<Byte>, mo: nat, ml0: nat) returns (out: seq<Byte>, ml: nat)
    requires |out0| < mo <= |out0| + |hist|
    ensures |out| + ml == |out0| + ml0 && ml <= ml0 && SameMatch(dict + hist, out0, ml0, out, ml, mo)
    ensures ml > 0 ==> mo == |out|
  {
    hide SameMatch;
    var v := mo - |out0|;
    var start := |hist| - v;
    var src := if ml0 > v then hist[start..] else hist[start..start + ml0];
    assert src == (dict + hist + out0)[|dict| + start..|dict| + start + |src|];
    StretchCopied(dict + hist, out0, src, mo, ml0);
    return out0 + src, if ml0 > v then ml0 - v else 0;
  }

  /** The part of a match that lies in the output. */
  method AppendInside(ghost before: seq<Byte>, out0: seq<Byte>, mo: nat, ml: nat) returns (out: seq<Byte>)
    requires 1 <= mo <= |out0|
    ensures |out| == |out0| + ml && SameMatch(before, out0, ml, out, 0, mo)
  {
    hide SameMatch;
    out := out0;
    var start := |out| - mo;
    if ml <= |out| - start {
      assert out[start..start + ml] == (before + out)[|before| + start..|before| + start + ml];
      StretchCopied(before, out, out[start..start + ml], mo, ml);
      out := out + out[start..start + ml];
      return;
    }
    SameMatchSelf(before, out, ml, mo);
    for i := 0 to ml
      invariant |out| == |out0| + i && SameMatch(before, out0, ml, out, ml - i, mo)
    {
      ghost var was := out;
      StretchCopied(before, out, [out[start + i]], mo, ml - i);
      out := out + [out[start + i]];
      SameMatchTwice(before, out0, ml, was, ml - i, out, ml - i - 1, mo);
    }
  }

  // ----- executing a part of the sequences -----

  /** Output and literals left after the sequences so far. */
  function ExecPart(dict: seq<Byte>, hist: seq<Byte>, window: nat, out: seq<Byte>, xs: seq<SeqVals>, lits: seq<Byte>): Result<(seq<Byte>, seq<Byte>)>
    decreases |xs|
  {
    if xs == [] then Ok((out, lits))
    else
      var front, x := xs[..|xs| - 1], xs[|xs| - 1];
      var (o, l) :- ExecPart(dict, hist, window, out, front, lits);
      ExecOne(dict, hist, window, o, x, l)
  }

  function ExecOne(dict: seq<Byte>, hist: seq<Byte>, window: nat, out: seq<Byte>, x: SeqVals, lits: seq<Byte>): Result<(seq<Byte>, seq<Byte>)>
  {
    if x.ll > |lits| || (x.mo == 0 && x.ml > 0) then Err(CorruptStream)
    else if !Reaches(|dict|, |hist| + |out| + x.ll, window, x.mo) then Err(DistanceOutOfRange)
    else Ok((CopyMatch(dict + hist, out + lits[..x.ll], x.mo, x.ml), lits[x.ll..]))
  }

  /** The rest of the sequences goes on from where a part of them ended; an error of the part is an error of the whole. */
  lemma {:induction false} ExecRest(dict: seq<Byte>, hist: seq<Byte>, window: nat, out: seq<Byte>, xs: seq<SeqVals>, k: nat, lits: seq<Byte>)
    requires k <= |xs|
    ensures match ExecPart(dict, hist, window, out, xs[..k], lits)
            case Err(_) => Execute(dict, hist, window, out, xs, lits).Err?
            case Ok((o, l)) =>
              var whole, rest := Execute(dict, hist, window, out, xs, lits), Execute(dict, hist, window, o, xs[k..], l);
              whole == rest || (whole.Err? && rest.Err?)
    decreases k
  {
    hide CopyMatch, Reaches;
    if k == 0 {
      assert xs[0..] == xs;
    } else {
      ExecRest(dict, hist, window, out, xs, k - 1, lits);
      assert xs[..k][..k - 1] == xs[..k - 1] && xs[..k][k - 1] == xs[k - 1];
      assert xs[k - 1..][0] == xs[k - 1] && xs[k - 1..][1..] == xs[k..];
    }
  }

  lemma ExecSnoc(dict: seq<Byte>, hist: seq<Byte>, window: nat, out: seq<Byte>, xs: seq<SeqVals>, x: SeqVals, lits: seq<Byte>)
    ensures match ExecPart(dict, hist, window, out, xs, lits)
            case Err(_) => ExecPart(dict, hist, window, out, xs + [x], lits).Err?
            case Ok((o, l)) => ExecPart(dict, hist, window, out, xs + [x], lits) == ExecOne(dict, hist, window, o, x, l)
  {
    hide ExecOne;
    assert (xs + [x])[..|xs|] == xs && (xs + [x])[|xs|] == x;
  }

  // ----- both at once -----

  /** What decoding first and executing afterwards yields. */
  function Block(bs: Bases, ts: Tables, s: seq<Bit>, n: nat, prev: Offsets, dict: seq<Byte>, hist: seq<Byte>, window: nat, out: seq<Byte>, lits: seq<Byte>):
    Result<seq<Byte>>
    requires TablesOk(ts) && BasesFor(bs, ts) && n >= 1
  {
    var (xs, p) :- DecodeBlock(bs, ts, s, n, prev, |lits|, if window < MAX_BLOCK_SIZE then window else MAX_BLOCK_SIZE);
    Execute(dict, hist, window, out, xs, lits)
  }

  /** If the sequences found so far fail to execute, so does the block. */
  lemma PartFails(dict: seq<Byte>, hist: seq<Byte>, window: nat, out: seq<Byte>, xs: seq<SeqVals>, ys: seq<SeqVals>, lits: seq<Byte>)
    requires xs <= ys && ExecPart(dict, hist, window, out, xs, lits).Err?
    ensures Execute(dict, hist, window, out, ys, lits).Err?
  {
    ExecRest(dict, hist, window, out, ys, |xs|, lits);
    assert ys[..|xs|] == xs;
  }

  lemma PartIsAll(dict: seq<Byte>, hist: seq<Byte>, window: nat, out: seq<Byte>, xs: seq<SeqVals>, lits: seq<Byte>)
    requires ExecPart(dict, hist, window, out, xs, lits).Ok?
    ensures var (o, l) := ExecPart(dict, hist, window, out, xs, lits).value; Execute(dict, hist, window, out, xs, lits) == Ok(o + l)
  {
    hide ExecPart;
    ExecRest(dict, hist, window, out, xs, |xs|, lits);
    assert xs[..|xs|] == xs && xs[|xs|..] == [];
  }

  /** Decoding and executing in step gives the block that decoding first and executing afterwards gives, and fails when that fails. */
  method DecodeSync(d: SequenceDecs, input: seq<Byte>, n: nat, dict: seq<Byte>, hist: seq<Byte>, window: nat, out0: seq<Byte>, literals: seq<Byte>)
    returns (r: Result<seq<Byte>>)
    requires d.Valid() && n >= 1
    modifies d`prevOffset, d`seqSize
    ensures TablesOk(d.Ts()) && BasesFor(d.bases, d.Ts())
    ensures input == [] || input[|input| - 1] == 0 ==> r.Err?
    ensures forall s :: Closed(s, input) ==>
              match Block(d.bases, d.Ts(), s, n, old(d.prevOffset), dict, hist, window, out0, literals)
              case Err(_) => r.Err?
              case Ok(out) => r == Ok(out)
  {
    hide Pow2, BitReader.Remaining, FseDecoder.Valid, TablesOk, BasesFor, Block, Closed;
    d.Ready();
    var br := new BitReader();
    var err := br.Init(input);
    if err.Some? {
      SequenceDecs.NotClosed(input);
      return Err(CorruptStream);
    }
    ghost var s := br.Remaining();
    forall s' | Closed(s', input)
      ensures s' == s
    {
      ClosedOnce(s, s', input);
    }
    assert br.Rest() == Ok(s);
    r := SyncFrom(d, br, n, dict, hist, window, out0, literals, s);
  }

  /** Decoding all sequences and executing them afterwards: the same block, into a buffer whose size was counted while decoding. */
  method DecodeThenExecute(d: SequenceDecs, input: seq<Byte>, n: nat, dict: seq<Byte>, hist: seq<Byte>, window: nat, out0: seq<Byte>, literals: seq<Byte>)
    returns (r: Result<seq<Byte>>)
    requires d.Valid() && n >= 1
    modifies d`prevOffset, d`seqSize
    ensures TablesOk(d.Ts()) && BasesFor(d.bases, d.Ts())
    ensures input == [] || input[|input| - 1] == 0 ==> r.Err?
    ensures forall s :: Closed(s, input) ==>
              match Block(d.bases, d.Ts(), s, n, old(d.prevOffset), dict, hist, window, out0, literals)
              case Err(_) => r.Err?
              case Ok(out) => r == Ok(out)
  {
    hide FseDecoder.Valid, TablesOk, BasesFor, DecodeBlock, Execute, Closed;
    ghost var prev := d.prevOffset;
    var xs := d.Decode(input, n, |literals|, window);
    if xs.Err? {
      return Err(xs.error);
    }
    ghost var s :| Closed(s, input);
    BlockFits(d.bases, d.Ts(), s, n, prev, |literals|, if window < MAX_BLOCK_SIZE then window else MAX_BLOCK_SIZE);
    forall s' | Closed(s', input)
      ensures s' == s
    {
      ClosedOnce(s, s', input);
    }
    var out := new Byte[|out0| + d.seqSize];
    CopyInto(out, 0, out0);
    assert out[..|out0|] == out0;
    var err := ExecuteAll(dict, hist, window, out, |out0|, xs.value, literals);
    return if err.Some? then Err(err.value) else Ok(out[..]);
  }

  lemma BlockFits(bs: Bases, ts: Tables, s: seq<Bit>, n: nat, prev: Offsets, lits: nat, maxBlock: nat)
    requires TablesOk(ts) && BasesFor(bs, ts) && n >= 1 && DecodeBlock(bs, ts, s, n, prev, lits, maxBlock).Ok?
    ensures var (xs, p) := DecodeBlock(bs, ts, s, n, prev, lits, maxBlock).value;
            && (forall k :: 0 <= k < |xs| ==> xs[k].mo == 0 ==> xs[k].ml == 0)
            && Literals(xs) <= lits && p.size == Size(xs) + (lits - Literals(xs))
  {
    hide TablesOk, BasesFor, DecodeSeqs, CheckSeqs;
    CheckedFits(Progress(prev, 0, lits), DecodeSeqs(bs, ts, s, n).value, maxBlock);
  }

  method SyncFrom(d: SequenceDecs, br: BitReader, n: nat, dict: seq<Byte>, hist: seq<Byte>, window: nat, out0: seq<Byte>, literals: seq<Byte>, ghost s: seq<Bit>)
    returns (r: Result<seq<Byte>>)
    requires d.Valid() && n >= 1 && br.Valid() && br.bitsRead <= 64 && br.Rest() == Ok(s)
    modifies d`prevOffset, d`seqSize, br
    ensures TablesOk(d.Ts()) && BasesFor(d.bases, d.Ts())
    ensures match Block(d.bases, d.Ts(), s, n, old(d.prevOffset), dict, hist, window, out0, literals)
            case Err(_) => r.Err?
            case Ok(out) => r == Ok(out)
  {
    hide Pow2, BitReader.Remaining, FseDecoder.Valid, TablesOk, BasesFor, DecodeBlock, Going, Execute, ExecPart;
    d.Ready();
    var maxBlock := if window < MAX_BLOCK_SIZE then window else MAX_BLOCK_SIZE;
    ghost var total, st;
    var ll, ml, of;
    ll, ml, of, st, total := d.Start(br, n, |literals|, maxBlock, s);
    var out, lits;
    r, out, lits := SyncLoop(d, br, ll, ml, of, st, n, dict, hist, window, out0, literals, maxBlock, total);
    if r.Err? {
      return;
    }
    if br.bitsRead <= 64 { br.AllRead(); }
    if d.seqSize + |lits| > maxBlock {
      return Err(CorruptStream);
    }
    var err := br.Close();
    if err.Some? {
      return Err(CorruptStream);
    }
    return Ok(out + lits);
  }

  method SyncLoop(d: SequenceDecs, br: BitReader, ll0: DecSymbol, ml0: DecSymbol, of0: DecSymbol, ghost st0: States, n: nat,
                  dict: seq<Byte>, hist: seq<Byte>, window: nat, out0: seq<Byte>, literals: seq<Byte>, maxBlock: nat,
                  ghost total: Result<(seq<SeqVals>, seq<Bit>, Progress)>)
    returns (r: Result<seq<Byte>>, out: seq<Byte>, lits: seq<Byte>)
    requires d.Valid() && br.Valid() && br.bitsRead < 192 && n >= 1 && d.At(ll0, ml0, of0, st0) && TablesOk(d.Ts()) && BasesFor(d.bases, d.Ts())
    requires Going(d.bases, d.Ts(), total, [], br.Rest(), st0, n, Progress(d.prevOffset, d.seqSize, |literals|), maxBlock)
    modifies d`prevOffset, d`seqSize, br
    ensures br.Valid() && (r.Ok? ==> br.cursor == 0 || br.bitsRead <= 32)
    ensures r.Err? ==> total.Err? || Execute(dict, hist, window, out0, total.value.0, literals).Err?
    ensures r.Ok? && br.Rest().Err? ==> total.Err?
    ensures r.Ok? && br.Rest().Ok? ==>
              total.Ok? && total.value.1 == br.Rest().value && total.value.2 == Progress(d.prevOffset, d.seqSize, |lits|) &&
              Execute(dict, hist, window, out0, total.value.0, literals) == Ok(out + lits)
  {
    hide Pow2, BitReader.Remaining, FseDecoder.Valid, TablesOk, BasesFor, Going, ReadTransition, Execute, ExecPart, CopyMatch, Reaches;
    var ll, ml, of, i := ll0, ml0, of0, n;
    ghost var st := st0;
    ghost var xs: seq<SeqVals> := [];
    out, lits := out0, literals;
    NothingDone(dict, hist, window, out0, literals);
    while true
      invariant d.Valid() && br.Valid() && br.bitsRead < 192 && 1 <= i <= n && d.At(ll, ml, of, st)
      invariant TablesOk(d.Ts()) && BasesFor(d.bases, d.Ts())
      invariant Going(d.bases, d.Ts(), total, xs, br.Rest(), st, i, Progress(d.prevOffset, d.seqSize, |lits|), maxBlock)
      invariant ExecPart(dict, hist, window, out0, xs, literals) == Ok((out, lits))
      decreases i
    {
      var x, litRemain := d.DecodeOne(br, ll, ml, of, st, i, |lits|, maxBlock, total, xs);
      if x.Err? {
        return Err(x.error), out, lits;
      }
      ExecSnoc(dict, hist, window, out0, xs, x.value, literals);
      xs := xs + [x.value];
      out := out + lits[..x.value.ll];
      lits := lits[x.value.ll..];
      var err;
      err, out := CopyAppend(dict, hist, window, out, x.value.mo, x.value.ml);
      if err.Some? {
        FoundSoFar(d.bases, d.Ts(), total, xs, br.Rest(), st, i, Progress(d.prevOffset, d.seqSize, |lits|), maxBlock);
        if total.Ok? { PartFails(dict, hist, window, out0, xs, total.value.0, literals); }
        return Err(CorruptStream), out, lits;
      }
      if i == 1 {
        PartIsAll(dict, hist, window, out0, xs, literals);
        return Ok(out), out, lits;
      }
      ll, ml, of, st := d.Advance(br, ll, ml, of, st);
      i := i - 1;
      GoingLost(d.bases, d.Ts(), total, xs, br.Rest(), st, i, Progress(d.prevOffset, d.seqSize, |lits|), maxBlock);
    }
  }

  /** After one more sequence the total still starts with all of them. */
  lemma FoundSoFar(bs: Bases, ts: Tables, total: Result<(seq<SeqVals>, seq<Bit>, Progress)>, xs: seq<SeqVals>, rest: Result<seq<Bit>>,
                   st: States, m: nat, p: Progress, maxBlock: nat)
    requires TablesOk(ts) && BasesFor(bs, ts) && StatesOk(ts, st) && m >= 1
    requires match rest
             case Err(_) => total.Err?
             case Ok(s1) =>
               if m == 1 then total == Ok((xs, s1, p))
               else match ReadTransition(ts, st, s1)
                    case Err(_) => total.Err?
                    case Ok((st', s2)) => Going(bs, ts, total, xs, Ok(s2), st', m - 1, p, maxBlock)
    ensures total.Ok? ==> xs <= total.value.0
  {
    hide DecodeOn, TablesOk, BasesFor, ReadTransition;
  }

  lemma NothingDone(dict: seq<Byte>, hist: seq<Byte>, window: nat, out: seq<Byte>, lits: seq<Byte>)
    ensures ExecPart(dict, hist, window, out, [], lits) == Ok((out, lits))
  {
  }
}
