/** The range encoder and decoder as objects that change their registers bit by bit. */
module RangeCoder {
  import opened Bits
  import opened Results
  import opened Cells
  import RangeSpec

  class RangeEncoder {
    var low: nat
    var nrange: nat
    var cache: Byte
    var cacheLen: nat
    var out: seq<Byte>

    ghost function Model(): RangeSpec.Encoder
      reads this
    {
      RangeSpec.Encoder(low, nrange, cache, cacheLen, out)
    }

    constructor ()
      ensures Model() == RangeSpec.ENCODER_START
    {
      low, nrange, cache, cacheLen, out := 0, 0xffff_ffff, 0, 1, [];
    }

    method ShiftLow()
      requires cacheLen >= 1
      modifies this
      ensures Model() == RangeSpec.ShiftLow(old(Model()))
    {
      if low % TWO32 < 0xff00_0000 || low / TWO32 != 0 {
        var carry := low / TWO32;
        var tmp := cache;
        while cacheLen > 0
          invariant cacheLen <= old(cacheLen)
          invariant low == old(low) && nrange == old(nrange) && cache == old(cache)
          invariant tmp == if cacheLen == old(cacheLen) then cache else 0xff
          invariant out == if cacheLen == old(cacheLen) then old(out)
                           else old(out) + [(cache + carry) % 256] + Fill((0xff + carry) % 256, old(cacheLen) - cacheLen - 1)
        {
          if cacheLen < old(cacheLen) {
            FillSnoc((0xff + carry) % 256, old(cacheLen) - cacheLen - 1);
          }
          out := out + [(tmp + carry) % 256];
          tmp := 0xff;
          cacheLen := cacheLen - 1;
        }
        cache := low % TWO32 / TWO24;
      }
      cacheLen := cacheLen + 1;
      ShiftWord(low);
      low := (low % TWO32 * 256) % TWO32;
    }

    /** Encode a bit with the probability `p`; the adapted probability is handed back. */
    method EncodeBit(b: Bit, p: int) returns (q: int)
      requires RangeSpec.Normal(Model()) && ProbOk(p)
      modifies this
      ensures ProbOk(q) && q == RangeSpec.Adapt(p, b)
      ensures RangeSpec.Normal(Model())
      ensures var bound := RangeSpec.Bound(old(nrange), p);
              Model() == if b == 0 then RangeSpec.Narrow(old(Model()), 0, bound)
                         else RangeSpec.Narrow(old(Model()), bound, old(nrange) - bound)
      ensures if b == 0 then 32 * (q - p) <= 2048 - p < 32 * (q - p) + 32 else 32 * (p - q) <= p < 32 * (p - q) + 32
    {
      RangeSpec.BoundSplits(nrange, p);
      RangeSpec.AdaptOk(p, b);
      var bound := RangeSpec.Bound(nrange, p);
      RangeSpec.NarrowOk(Model(), if b == 0 then 0 else bound, if b == 0 then bound else nrange - bound);
      if b == 0 {
        nrange := bound;
        q := p + (2048 - p) / 32;
      } else {
        low := low + bound;
        nrange := nrange - bound;
        q := p - p / 32;
      }
      if nrange < TWO24 {
        nrange := nrange * 256;
        ShiftLow();
      }
    }

    /** Encode a bit with probability one half. */
    method DirectEncodeBit(b: Bit)
      requires RangeSpec.Normal(Model())
      modifies this
      ensures RangeSpec.Normal(Model())
      ensures Model() == RangeSpec.Narrow(old(Model()), b * (old(nrange) / 2), old(nrange) / 2)
    {
      RangeSpec.NarrowOk(Model(), b * (nrange / 2), nrange / 2);
      nrange := nrange / 2;
      low := low + b * nrange;
      if nrange < TWO24 {
        nrange := nrange * 256;
        ShiftLow();
      }
    }

    method Close()
      requires cacheLen >= 1
      modifies this
      ensures out == RangeSpec.Close(old(Model()))
    {
      var i := 0;
      while i < 5
        invariant 0 <= i <= 5 && cacheLen >= 1
        invariant RangeSpec.ShiftTimes(old(Model()), 5) == RangeSpec.ShiftTimes(Model(), 5 - i)
      {
        ShiftLow();
        i := i + 1;
      }
    }
  }

  /** A 32-bit shift by one byte keeps the low three bytes. */
  lemma ShiftWord(low: nat)
    ensures (low % TWO32 * 256) % TWO32 == (low % TWO24) * 256
  {
    var a, b := low % TWO32 / TWO24, low % TWO24;
    assert low % TWO32 == a * TWO24 + b;
    assert (a * TWO24 + b) * 256 == a * TWO32 + b * 256;
  }

  class RangeDecoder {
    var nrange: nat
    var code: nat
    var rest: seq<Byte>

    ghost function Model(): RangeSpec.Decoder
      reads this
    {
      RangeSpec.Decoder(nrange, code, rest)
    }

    /** The registers before the first five bytes are read; Open reads them. */
    constructor (input: seq<Byte>)
      ensures nrange == 0xffff_ffff && code == 0 && rest == input
    {
      nrange, code, rest := 0xffff_ffff, 0, input;
    }

    method Open() returns (err: Option<Error>)
      requires nrange == 0xffff_ffff && code == 0
      modifies this
      ensures match RangeSpec.NewDecoder(old(rest))
              case Ok(d) => err == None && Model() == d
              case Err(e) => err == Some(e)
    {
      if rest == [] {
        return Some(UnexpectedEof);
      }
      var b := rest[0];
      rest := rest[1..];
      if b != 0 {
        return Some(FirstByteNotZero);
      }
      OpenUnfolds(old(rest));
      var i := 0;
      while i < 4
        invariant 0 <= i <= 4 && nrange == 0xffff_ffff
        invariant old(rest) != [] && old(rest)[0] == 0
        invariant RangeSpec.NewDecoder(old(rest)) == OpenFrom(Model(), 4 - i)
      {
        err := UpdateCode();
        if err != None {
          return;
        }
        i := i + 1;
      }
      if code >= nrange {
        return Some(CodeOutOfRange);
      }
      return None;
    }

    static ghost function OpenFrom(d: RangeSpec.Decoder, n: nat): Result<RangeSpec.Decoder>
      decreases n
    {
      if n == 0 then if d.code >= d.nrange then Err(CodeOutOfRange) else Ok(d)
      else
        var d' :- RangeSpec.UpdateCode(d);
        OpenFrom(d', n - 1)
    }

    static lemma OpenUnfolds(input: seq<Byte>)
      requires input != [] && input[0] == 0
      ensures RangeSpec.NewDecoder(input) == OpenFrom(RangeSpec.Decoder(0xffff_ffff, 0, input[1..]), 4)
    {
      var r1 := RangeSpec.UpdateCode(RangeSpec.Decoder(0xffff_ffff, 0, input[1..]));
      if r1.Ok? {
        var r2 := RangeSpec.UpdateCode(r1.value);
        if r2.Ok? {
          assert OpenFrom(r1.value, 3) == OpenFrom(r2.value, 2);
          var r3 := RangeSpec.UpdateCode(r2.value);
          if r3.Ok? { assert OpenFrom(r2.value, 2) == OpenFrom(r3.value, 1); }
        }
      }
    }

    method UpdateCode() returns (err: Option<Error>)
      modifies this
      ensures match RangeSpec.UpdateCode(old(Model()))
              case Ok(d) => err == None && Model() == d
              case Err(e) => err == Some(e)
    {
      if rest == [] {
        return Some(UnexpectedEof);
      }
      code := (code * 256) % TWO32 + rest[0];
      rest := rest[1..];
      return None;
    }

    method DirectDecodeBit() returns (r: Result<Bit>)
      modifies this
      ensures match RangeSpec.DecodeDirectBit(old(Model()))
              case Ok((b, d)) => r == Ok(b) && Model() == d
              case Err(e) => r == Err(e)
    {
      nrange := nrange / 2;
      code := RangeSpec.Sub32(code, nrange);
      // t is the sign of the difference: it puts the subtracted half back
      var b: Bit := if code < TWO31 then 1 else 0;
      if b == 0 {
        code := (code + nrange) % TWO32;
      }
      if nrange >= TWO24 {
        return Ok(b);
      }
      nrange := (nrange * 256) % TWO32;
      var err := UpdateCode();
      if err.Some? {
        return Err(err.value);
      }
      return Ok(b);
    }

    /** Decode a bit with the probability `p`; the adapted probability is handed back. */
    method DecodeBit(p: int) returns (r: Result<(Bit, int)>)
      requires p >= 0
      modifies this
      ensures match RangeSpec.DecodeBit(old(Model()), p)
              case Ok((b, d)) => r == Ok((b, RangeSpec.Adapt(p, b))) && Model() == d
              case Err(e) => r == Err(e)
      ensures r.Ok? ==> var (b, q) := r.value;
                        if b == 0 then 32 * (q - p) <= 2048 - p < 32 * (q - p) + 32 else 32 * (p - q) <= p < 32 * (p - q) + 32
    {
      var bound := RangeSpec.Bound(nrange, p);
      var b: Bit, q: int;
      if code < bound {
        nrange := bound;
        b, q := 0, p + (2048 - p) / 32;
      } else {
        code := RangeSpec.Sub32(code, bound);
        nrange := RangeSpec.Sub32(nrange, bound);
        b, q := 1, p - p / 32;
      }
      if nrange >= TWO24 {
        return Ok((b, q));
      }
      nrange := (nrange * 256) % TWO32;
      var err := UpdateCode();
      if err.Some? {
        return Err(err.value);
      }
      return Ok((b, q));
    }
  }
}
