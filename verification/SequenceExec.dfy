/** Executing the sequences of a block: literals, and matches that reach into the output, the history or the dictionary. */
module SequenceExec {
  import opened Bits
  import opened Results
  import OpSpec
  import opened LzmaBuffer
  import opened SequenceDecoder
  import opened SequenceBlock
  import SequenceSpec

  /** A distance the decoder accepts with n bytes of history and output: inside the window, or into the dictionary before them. */
  predicate Reaches(dictLen: nat, n: nat, window: nat, mo: nat)
  {
    if mo > n || mo > window then n < mo <= n + dictLen else true
  }

  /** The match byte by byte. */
  function CopyMatch(before: seq<Byte>, out: seq<Byte>, mo: nat, ml: nat): (r: seq<Byte>)
    requires ml > 0 ==> 1 <= mo <= |before| + |out|
    ensures |r| == |out| + ml && out <= r
  {
    if ml == 0 then out
    else
      var h := OpSpec.CopyBack(before + out, mo, ml);
      h[|before|..]
  }

  /** The output after all sequences, and the literals left over at the end. */
  function Execute(dict: seq<Byte>, hist: seq<Byte>, window: nat, out: seq<Byte>, xs: seq<SeqVals>, lits: seq<Byte>): Result<seq<Byte>>
    decreases |xs|
  {
    if xs == [] then Ok(out + lits)
    else
      var x := xs[0];
      if x.ll > |lits| || (x.mo == 0 && x.ml > 0) then Err(CorruptStream)
      else
        var out1 := out + lits[..x.ll];
        if !Reaches(|dict|, |hist| + |out1|, window, x.mo) then Err(DistanceOutOfRange)
        else Execute(dict, hist, window, CopyMatch(dict + hist, out1, x.mo, x.ml), xs[1..], lits[x.ll..])
  }

  // ----- the copies -----

  /** `copy(out[t:], src)` with room for all of it. */
  method CopyInto(out: array<Byte>, t: nat, src: seq<Byte>)
    requires t + |src| <= out.Length
    modifies out
    ensures out[..t + |src|] == old(out[..t]) + src
  {
    for i := 0 to |src|
      invariant out[..t] == old(out[..t])
      invariant forall k :: 0 <= k < i ==> out[t + k] == src[k]
    {
      out[t + i] := src[i];
    }
    assert out[t..t + |src|] == src;
    assert out[..t + |src|] == out[..t] + out[t..t + |src|];
  }

  /** What is still to be copied gives the same result as before. */
  ghost predicate SameMatch(before: seq<Byte>, out0: seq<Byte>, ml0: nat, out1: seq<Byte>, ml1: nat, mo: nat)
    requires 1 <= mo <= |before| + |out0| && 1 <= mo <= |before| + |out1|
  {
    OpSpec.CopyBack(before + out0, mo, ml0) == OpSpec.CopyBack(before + out1, mo, ml1)
  }

  /** A stretch copied from where the match starts leaves the rest of the match to do. */
  lemma StretchCopied(before: seq<Byte>, out: seq<Byte>, src: seq<Byte>, mo: nat, ml: nat)
    requires 1 <= mo <= |before| + |out| && |src| <= ml && |src| <= mo
    requires src == (before + out)[|before| + |out| - mo..|before| + |out| - mo + |src|]
    ensures SameMatch(before, out, ml, out + src, ml - |src|, mo)
  {
    hide OpSpec.CopyBack;
    CopyChunk(before + out, mo, ml, |src|);
    assert before + (out + src) == (before + out) + src;
  }

  /** The part of a match that lies in the dictionary. */
  method CopyFromDict(dict: seq<Byte>, ghost hist: seq<Byte>, n: nat, out: array<Byte>, t: nat, mo: nat, ml: nat) returns (t': nat, ml': nat)
    requires n == t + |hist| && n < mo <= n + |dict| && t + ml <= out.Length
    modifies out
    ensures t <= t' && t' + ml' == t + ml && ml' <= ml && t' <= out.Length
    ensures mo <= |dict + hist| + t' && SameMatch(dict + hist, old(out[..t]), ml, out[..t'], ml', mo)
    ensures ml' > 0 ==> mo == t' + |hist|
  {
    hide SameMatch;
    var dictO := |dict| - (mo - n);
    var end := dictO + ml;
    var src := if end > |dict| then dict[dictO..] else dict[dictO..end];
    assert src == (dict + hist + out[..t])[dictO..dictO + |src|];
    StretchCopied(dict + hist, out[..t], src, mo, ml);
    CopyInto(out, t, src);
    t', ml' := t + |src|, ml - |src|;
  }

  /** The part of a match that lies in the history. */
  method CopyFromHistory(ghost dict: seq<Byte>, hist: seq<Byte>, out: array<Byte>, t: nat, mo: nat, ml: nat) returns (t': nat, ml': nat)
    requires t < mo <= t + |hist| && t + ml <= out.Length
    modifies out
    ensures t <= t' && t' + ml' == t + ml && ml' <= ml && t' <= out.Length
    ensures mo <= |dict + hist| + t' && SameMatch(dict + hist, old(out[..t]), ml, out[..t'], ml', mo)
    ensures ml' > 0 ==> mo == t'
  {
    hide SameMatch;
    var v := mo - t;
    var start := |hist| - v;
    var src := if ml > v then hist[start..] else hist[start..start + ml];
    assert src == (dict + hist + out[..t])[|dict| + start..|dict| + start + |src|];
    StretchCopied(dict + hist, out[..t], src, mo, ml);
    CopyInto(out, t, src);
    t', ml' := t + |src|, ml - |src|;
  }

  /** The part of a match that lies in the output, overlapping itself or not. */
  method CopyInside(ghost before: seq<Byte>, out: array<Byte>, t: nat, mo: nat, ml: nat) returns (t': nat)
    requires 1 <= mo <= t && t + ml <= out.Length
    modifies out
    ensures t' == t + ml && SameMatch(before, old(out[..t]), ml, out[..t'], 0, mo)
  {
    hide SameMatch;
    var start := t - mo;
    if ml <= t - start {
      var src := out[start..start + ml];
      assert src == (before + out[..t])[|before| + start..|before| + start + |src|];
      StretchCopied(before, out[..t], src, mo, ml);
      CopyInto(out, t, src);
      return t + ml;
    }
    SameMatchSelf(before, out[..t], ml, mo);
    for i := 0 to ml
      invariant SameMatch(before, old(out[..t]), ml, out[..t + i], ml - i, mo)
    {
      ghost var was := out[..t + i];
      assert out[start + i] == was[|was| - mo];
      StretchCopied(before, was, [was[|was| - mo]], mo, ml - i);
      SameMatchTwice(before, old(out[..t]), ml, was, ml - i, was + [was[|was| - mo]], ml - i - 1, mo);
      out[t + i] := out[start + i];
      assert out[..t + i] == was && out[t + i] == was[|was| - mo];
      assert out[..t + i + 1] == was + [was[|was| - mo]];
    }
    return t + ml;
  }

  lemma SameMatchSelf(before: seq<Byte>, out: seq<Byte>, ml: nat, mo: nat)
    requires 1 <= mo <= |before| + |out|
    ensures SameMatch(before, out, ml, out, ml, mo)
  {
  }

  lemma SameMatchTwice(before: seq<Byte>, a: seq<Byte>, la: nat, b: seq<Byte>, lb: nat, c: seq<Byte>, lc: nat, mo: nat)
    requires 1 <= mo <= |before| + |a| && mo <= |before| + |b| && mo <= |before| + |c|
    requires SameMatch(before, a, la, b, lb, mo) && SameMatch(before, b, lb, c, lc, mo)
    ensures SameMatch(before, a, la, c, lc, mo)
  {
  }

  lemma MatchDone(before: seq<Byte>, a: seq<Byte>, ml: nat, b: seq<Byte>, mo: nat)
    requires 1 <= mo <= |before| + |a| && mo <= |before| + |b| && SameMatch(before, a, ml, b, 0, mo)
    ensures b == CopyMatch(before, a, mo, ml)
  {
    assert (before + b)[|before|..] == b && (before + a)[|before|..] == a;
  }

  /** A whole match: first what the dictionary holds of it, then what the history holds, then the output itself. */
  method Copy(dict: seq<Byte>, hist: seq<Byte>, window: nat, out: array<Byte>, t: nat, mo: nat, ml: nat) returns (err: Option<Error>, t': nat)
    requires (mo == 0 ==> ml == 0) && t + ml <= out.Length
    modifies out
    ensures err == None <==> Reaches(|dict|, |hist| + t, window, mo)
    ensures err == None ==> t' == t + ml && (ml > 0 ==> mo <= |dict + hist| + t) &&
                            out[..t'] == CopyMatch(dict + hist, old(out[..t]), mo, ml)
  {
    hide SameMatch, CopyMatch;
    CopyNothing(dict + hist, out[..t], mo);
    t' := t;
    var left := ml;
    if mo > 0 { SameMatchMaybe(dict + hist, out[..t], ml, mo); }
    if mo > t' + |hist| || mo > window {
      if |dict| == 0 {
        return Some(DistanceOutOfRange), t';
      }
      var dictO := |dict| - (mo - (t' + |hist|));
      if dictO < 0 || dictO >= |dict| {
        return Some(DistanceOutOfRange), t';
      }
      t', left := CopyFromDict(dict, hist, t' + |hist|, out, t', mo, left);
    }
    if mo > t' && left > 0 {
      ghost var was, before := out[..t'], left;
      t', left := CopyFromHistory(dict, hist, out, t', mo, left);
      SameMatchTwice(dict + hist, old(out[..t]), ml, was, before, out[..t'], left, mo);
    }
    if left > 0 {
      ghost var was, before := out[..t'], left;
      t' := CopyInside(dict + hist, out, t', mo, left);
      SameMatchTwice(dict + hist, old(out[..t]), ml, was, before, out[..t'], 0, mo);
    }
    if mo > 0 { MatchDone(dict + hist, old(out[..t]), ml, out[..t'], mo); }
    return None, t';
  }

  lemma CopyNothing(before: seq<Byte>, out: seq<Byte>, mo: nat)
    ensures CopyMatch(before, out, mo, 0) == out
  {
  }

  lemma SameMatchMaybe(before: seq<Byte>, out: seq<Byte>, ml: nat, mo: nat)
    ensures 1 <= mo <= |before| + |out| ==> SameMatch(before, out, ml, out, ml, mo)
  {
  }

  // ----- all sequences -----

  lemma ExecStep(dict: seq<Byte>, hist: seq<Byte>, window: nat, out: seq<Byte>, xs: seq<SeqVals>, lits: seq<Byte>, k: nat)
    requires k < |xs| && xs[k].ll <= |lits| && (xs[k].mo == 0 ==> xs[k].ml == 0)
    ensures var out1 := out + lits[..xs[k].ll];
            var r := Execute(dict, hist, window, out, xs[k..], lits);
            if Reaches(|dict|, |hist| + |out1|, window, xs[k].mo)
            then (xs[k].ml > 0 ==> xs[k].mo <= |dict + hist| + |out1|) &&
                 r == Execute(dict, hist, window, CopyMatch(dict + hist, out1, xs[k].mo, xs[k].ml), xs[k + 1..], lits[xs[k].ll..])
            else r.Err?
  {
    assert xs[k..][0] == xs[k] && xs[k..][1..] == xs[k + 1..];
  }

  lemma LeftToDo(xs: seq<SeqVals>, k: nat)
    requires k < |xs|
    ensures Size(xs[k..]) == xs[k].ll + xs[k].ml + Size(xs[k + 1..]) && Literals(xs[k..]) == xs[k].ll + Literals(xs[k + 1..])
  {
    assert xs[k..][0] == xs[k] && xs[k..][1..] == xs[k + 1..];
  }

  /** Executes the decoded sequences into a buffer whose size was counted while decoding. */
  method ExecuteAll(dict: seq<Byte>, hist: seq<Byte>, window: nat, out: array<Byte>, t0: nat, xs: seq<SeqVals>, literals: seq<Byte>) returns (err: Option<Error>)
    requires Literals(xs) <= |literals| && t0 + Size(xs) + (|literals| - Literals(xs)) == out.Length
    requires forall k :: 0 <= k < |xs| ==> xs[k].mo == 0 ==> xs[k].ml == 0
    modifies out
    ensures err == None <==> Execute(dict, hist, window, old(out[..t0]), xs, literals).Ok?
    ensures err == None ==> Execute(dict, hist, window, old(out[..t0]), xs, literals) == Ok(out[..])
  {
    hide CopyMatch, Execute, Reaches, Size, Literals;
    var t: nat, lits := t0, literals;
    assert xs[0..] == xs;
    for k := 0 to |xs|
      invariant t <= out.Length
      invariant t + Size(xs[k..]) + (|lits| - Literals(xs[k..])) == out.Length && Literals(xs[k..]) <= |lits|
      invariant Execute(dict, hist, window, out[..t], xs[k..], lits) == Execute(dict, hist, window, old(out[..t0]), xs, literals)
    {
      var x := xs[k];
      LeftToDo(xs, k);
      ExecStep(dict, hist, window, out[..t], xs, lits, k);
      CopyInto(out, t, lits[..x.ll]);
      t, lits := t + x.ll, lits[x.ll..];
      err, t := Copy(dict, hist, window, out, t, x.mo, x.ml);
      if err.Some? {
        return;
      }
    }
    NothingLeft(dict, hist, window, out[..t], lits, xs);
    CopyInto(out, t, lits);
    assert out[..out.Length] == out[..];
    return None;
  }

  lemma NothingLeft(dict: seq<Byte>, hist: seq<Byte>, window: nat, out: seq<Byte>, lits: seq<Byte>, xs: seq<SeqVals>)
    ensures Execute(dict, hist, window, out, xs[|xs|..], lits) == Ok(out + lits)
    ensures Size(xs[|xs|..]) == 0 && Literals(xs[|xs|..]) == 0
  {
  }

  /** Without a dictionary: the same, less the part that reaches into one. */
  method ExecuteSimple(hist: seq<Byte>, window: nat, out: array<Byte>, t0: nat, xs: seq<SeqVals>, literals: seq<Byte>) returns (err: Option<Error>)
    requires Literals(xs) <= |literals| && t0 + Size(xs) + (|literals| - Literals(xs)) == out.Length
    requires forall k :: 0 <= k < |xs| ==> xs[k].mo == 0 ==> xs[k].ml == 0
    modifies out
    ensures err == None <==> Execute([], hist, window, old(out[..t0]), xs, literals).Ok?
    ensures err == None ==> Execute([], hist, window, old(out[..t0]), xs, literals) == Ok(out[..])
  {
    hide CopyMatch, Execute, Reaches, Size, Literals;
    var t: nat, lits := t0, literals;
    assert xs[0..] == xs;
    for k := 0 to |xs|
      invariant t <= out.Length
      invariant t + Size(xs[k..]) + (|lits| - Literals(xs[k..])) == out.Length && Literals(xs[k..]) <= |lits|
      invariant Execute([], hist, window, out[..t], xs[k..], lits) == Execute([], hist, window, old(out[..t0]), xs, literals)
    {
      var x := xs[k];
      LeftToDo(xs, k);
      ExecStep([], hist, window, out[..t], xs, lits, k);
      ReachesSimple(|hist| + t + x.ll, window, x.mo);
      CopyInto(out, t, lits[..x.ll]);
      t, lits := t + x.ll, lits[x.ll..];
      if x.mo > t + |hist| || x.mo > window {
        return Some(DistanceOutOfRange);
      }
      t := CopySimple(hist, out, t, x.mo, x.ml);
    }
    NothingLeft([], hist, window, out[..t], lits, xs);
    CopyInto(out, t, lits);
    assert out[..out.Length] == out[..];
    return None;
  }

  lemma ReachesSimple(n: nat, window: nat, mo: nat)
    ensures Reaches(0, n, window, mo) <==> mo <= n && mo <= window
  {
  }

  method CopySimple(hist: seq<Byte>, out: array<Byte>, t: nat, mo: nat, ml: nat) returns (t': nat)
    requires (mo == 0 ==> ml == 0) && t + ml <= out.Length && mo <= t + |hist|
    modifies out
    ensures t' == t + ml && out[..t'] == CopyMatch([] + hist, old(out[..t]), mo, ml)
  {
    hide SameMatch, CopyMatch;
    CopyNothing([] + hist, out[..t], mo);
    if ml == 0 {
      return t;
    }
    t' := t;
    var left := ml;
    SameMatchMaybe([] + hist, out[..t], ml, mo);
    if mo > t' {
      ghost var was, before := out[..t'], left;
      t', left := CopyFromHistory([], hist, out, t', mo, left);
      SameMatchTwice([] + hist, old(out[..t]), ml, was, before, out[..t'], left, mo);
    }
    if left > 0 {
      ghost var was, before := out[..t'], left;
      t' := CopyInside([] + hist, out, t', mo, left);
      SameMatchTwice([] + hist, old(out[..t]), ml, was, before, out[..t'], 0, mo);
    }
    MatchDone([] + hist, old(out[..t]), ml, out[..t'], mo);
  }

  /** A decoded block always meets what executing asks for. */
  lemma {:induction false} CheckedFits(p: Progress, vs: seq<SequenceSpec.Value>, maxBlock: nat)
    requires CheckSeqs(p, vs, maxBlock).Ok?
    ensures var (xs, p') := CheckSeqs(p, vs, maxBlock).value;
            && (forall k :: 0 <= k < |xs| ==> xs[k].mo == 0 ==> xs[k].ml == 0)
            && p'.lits + Literals(xs) == p.lits && p'.size == p.size + Size(xs)
    decreases |vs|
  {
    hide Resolve;
    if vs != [] {
      var (x, p1) := CheckSeq(p, vs[0], maxBlock).value;
      CheckedFits(p1, vs[1..], maxBlock);
      var xs := CheckSeqs(p1, vs[1..], maxBlock).value.0;
      assert ([x] + xs)[1..] == xs;
    }
  }
}
