/** What the adaptive probabilities do, in numbers: how a cell moves, where it stops, and how it splits a range. */
module RangeFacts {
  import opened Bits
  import opened Cells
  import opened Results
  import opened RangeSpec

  /** A bit moves its cell a thirty-second part, rounded down, of the way to one end of the scale. */
  lemma AdaptMoves(p: int, b: Bit)
    ensures b == 0 ==> 32 * (Adapt(p, b) - p) <= 2048 - p < 32 * (Adapt(p, b) - p) + 32
    ensures b == 1 ==> 32 * (p - Adapt(p, b)) <= p < 32 * (p - Adapt(p, b)) + 32
  {
  }

  /** The same bit, n times in one cell. */
  function Again(c: Cell, b: Bit, n: nat): (evs: seq<Event>)
    ensures |evs| == n && forall i :: 0 <= i < n ==> evs[i] == Model(c, b)
  {
    seq(n, _ => Model(c, b))
  }

  /** Where a cell ends up: zeros take it to 2017, ones to 31, and there it stays however many more come. */
  lemma {:induction false} Saturates(w: Writer, c: Cell, b: Bit, n: nat)
    requires WriterOk(w) && n >= if b == 0 then 2017 - Get(w.p, c) else Get(w.p, c) - 31
    ensures Get(WriteAll(w, Again(c, b, n)).p, c) == if b == 0 then 2017 else 31
    decreases n
  {
    hide Narrow, Normal, Bound;
    if n > 0 {
      var evs := Again(c, b, n);
      assert evs[0] == Model(c, b) && evs[1..] == Again(c, b, n - 1);
      assert Get(Write(w, evs[0]).p, c) == Adapt(Get(w.p, c), b);
      AdaptMoves(Get(w.p, c), b);
      AdaptOk(Get(w.p, c), b);
      Saturates(Write(w, evs[0]), c, b, n - 1);
    } else {
      assert ProbOk(Get(w.p, c));
    }
  }

  /** Up to there every bit moves it. */
  lemma KeepsMoving(p: int)
    requires ProbOk(p)
    ensures p < 2017 <==> Adapt(p, 0) > p
    ensures p > 31 <==> Adapt(p, 1) < p
  {
  }

  /** The part of a range for a zero is the range's 2048th part, rounded down, as many times as the probability says. */
  lemma SplitIs(nrange: nat, p: nat)
    requires p >= 1
    ensures var bound := Bound(nrange, p);
            bound % p == 0 && 2048 * (bound / p) <= nrange < 2048 * (bound / p) + 2048
  {
    var q := nrange / 2048;
    assert q * p / p == q && q * p % p == 0 by { Multiple(q, p); }
  }

  lemma Multiple(q: nat, p: nat)
    requires p >= 1
    ensures q * p / p == q && q * p % p == 0
  {
    var x := q * p;
    SameQuotient(x / p, x % p, q, 0, p);
  }

  /** A cell that was never used halves the range: the first bit in it is coded as a direct one, but for rounding. */
  lemma FreshHalves(p: Probs, c: Cell, nrange: nat)
    requires c !in p
    ensures var bound := Bound(nrange, Get(p, c)); 2 * bound <= nrange < 2 * bound + 2048
  {
  }

  /** What a decoder starts with: the first byte is 0, the next four are the code, highest first, below the whole range. */
  lemma OpenReads(input: seq<Byte>)
    ensures NewDecoder(input).Ok? <==> |input| >= 5 && input[0] == 0 && Big(input[1..5]) < 0xffff_ffff
    ensures NewDecoder(input).Ok? ==> NewDecoder(input).value == Decoder(0xffff_ffff, Big(input[1..5]), input[5..])
  {
    hide Big, UpdateCode;
    if input != [] {
      var rest := input[1..];
      var byte := (i: nat) requires i < |rest| => rest[i] as int;
      Shifts(0xffff_ffff, 0, rest);
      if |rest| >= 1 { Shifts(0xffff_ffff, byte(0), rest[1..]); }
      if |rest| >= 2 { Shifts(0xffff_ffff, byte(0) * 256 + byte(1), rest[2..]); }
      if |rest| >= 3 { Shifts(0xffff_ffff, (byte(0) * 256 + byte(1)) * 256 + byte(2), rest[3..]); }
      if |rest| >= 4 {
        BigOfFour(input[1..5]);
        assert rest[4..] == input[5..];
      }
    }
  }

  lemma Shifts(nrange: nat, code: nat, rest: seq<Byte>)
    requires code < TWO24
    ensures UpdateCode(Decoder(nrange, code, rest)) ==
            if rest == [] then Err(UnexpectedEof) else Ok(Decoder(nrange, code * 256 + rest[0], rest[1..]))
  {
  }

  lemma BigOfFour(s: seq<Byte>)
    requires |s| == 4
    ensures Big(s) == ((s[0] * 256 + s[1]) * 256 + s[2]) * 256 + s[3] < TWO32
  {
    hide Big;
    BigSnoc(s[..3], s[3]);
    BigSnoc(s[..2], s[2]);
    BigSnoc(s[..1], s[1]);
    BigSnoc([], s[0]);
    assert s[..3] + [s[3]] == s && s[..2] + [s[2]] == s[..3] && s[..1] + [s[1]] == s[..2] && [] + [s[0]] == s[..1];
    BigNone();
  }

  lemma BigNone()
    ensures Big([]) == 0
  {
  }
}
