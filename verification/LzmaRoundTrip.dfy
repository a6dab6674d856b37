/** A text through the LZMA encoder and the decoder. */
module LzmaRoundTrip {
  import opened Bits
  import opened Results
  import opened Cells
  import opened RangeSpec
  import opened CodecSpec
  import opened OpSpec
  import opened LzmaBuffer
  import opened LzmaCoder
  import LzmaEncoder
  import opened LzmaDecoder
  import RollingHash
  import HashTables

  /** The stream of a text, by an encoder with a dictionary and a hash chain of its own. */
  method Compress(text: seq<Byte>, props: Props, dictCap: nat, bufSize: nat, size: nat, wordLen: nat, words: seq<RollingHash.Word>, marker: bool)
    returns (out: seq<Byte>, ghost ops: seq<Op>)
    requires 1 <= dictCap <= EOS_DIST && bufSize >= MAX_MATCH_LEN && PropsOk(props)
    requires size >= 1 && 1 <= wordLen <= 4 && |words| == 256
    ensures ProbsOk(map[]) && ValidOps(INITIAL_STATE, [], dictCap, ops) && Expand(INITIAL_STATE, [], dictCap, ops) == text
    ensures out == EncodeStream(map[], INITIAL_STATE, props, [], dictCap, ops, marker)
  {
    hide RingSlice, RecentOf, SameTail, HashTables.HashTable.Valid, EncoderDict.Valid, LzmaEncoder.LogOk, Normal, WriteAll, EncodeStream, StreamGoal, RepsOk, ValidOps, Expand;
    var dict := new EncoderDict(dictCap, bufSize);
    var m := new HashTables.HashTable(dictCap, size, wordLen, words);
    var state := new State(props);
    NoReps(dictCap);
    dict.Facts();
    assert dict.Hist() == [];
    var e := new LzmaEncoder.Encoder(dict, m, state, marker, None);
    var n, err := e.Write(text);
    assert text[..n] == text && [] + text == text;
    e.Close();
    assert dict.all[..0] == [] && dict.all[..|dict.all|] == dict.all;
    return e.re.out, e.log.ops;
  }

  lemma NoReps(cap: nat)
    ensures RepsOk(INITIAL_STATE, [], cap)
  {
  }

  /**
   Whatever the text, the properties and the sizes, and in whatever pieces it is read: what comes out is the text. Without a
   marker the size has to be known, and the text must not be empty.
   */
  method RoundTrip(text: seq<Byte>, props: Props, dictCap: nat, bufSize: nat, size: nat, wordLen: nat, words: seq<RollingHash.Word>,
                   marker: bool, sized: bool, decCap: nat, chunk: nat)
    returns (p: seq<Byte>)
    requires 1 <= dictCap <= EOS_DIST && bufSize >= MAX_MATCH_LEN && PropsOk(props)
    requires size >= 1 && 1 <= wordLen <= 4 && |words| == 256
    requires dictCap <= decCap <= EOS_DIST && decCap >= MAX_MATCH_LEN && chunk >= 1
    requires marker || (sized && text != [])
    ensures p == text
  {
    hide RingSlice, RecentOf, SameTail, EncodeStream, StreamGoal, RepsOk, ValidOps, Expand, NewDecoder;
    var out;
    ghost var ops;
    out, ops := Compress(text, props, dictCap, bufSize, size, wordLen, words, marker);
    NoReps(dictCap);
    NoOps(dictCap, ops);
    var state := new State(props);
    var dict := new DecoderDict(decCap);
    var d := OpenDecoder(out, state, dict, if sized then |text| else -1);
    StreamOnTrack(map[], INITIAL_STATE, props, [], dictCap, decCap, ops, marker, if sized then |text| else -1);
    d.value.Opened(map[], dictCap, ops, marker);
    ghost var goal := StreamGoal(map[], INITIAL_STATE, props, [], dictCap, ops, marker);
    p := d.value.ReadAll(chunk, dictCap, ops, marker, goal);
    GoalHist(props, dictCap, ops, marker);
    assert [] + text[0..] == text;
  }

  lemma NoOps(cap: nat, ops: seq<Op>)
    requires ValidOps(INITIAL_STATE, [], cap, ops)
    ensures ops == [] ==> Expand(INITIAL_STATE, [], cap, ops) == []
  {
  }

  lemma GoalHist(props: Props, cap: nat, ops: seq<Op>, marker: bool)
    requires PropsOk(props) && ValidOps(INITIAL_STATE, [], cap, ops)
    ensures StreamGoal(map[], INITIAL_STATE, props, [], cap, ops, marker).hist == Expand(INITIAL_STATE, [], cap, ops)
  {
  }
}
