/** The FSE encoder and decoder with the tables they build, each step equal to its specification. */
module FseCoder {
  import opened Bits
  import opened Counting
  import opened Results
  import opened FseSpread
  import opened FseCoding
  import opened FseTables
  import opened SequenceCodes

  class FseEncoder {
    var norm: seq<int>
    var actualTableLog: nat
    var stateTable: array<nat>
    var symbolTT: array<SymbolTransform>
    var useRLE: bool
    var rleVal: nat
    /** The symbol of every cell. */
    ghost var cells: seq<nat>

    ghost predicate Valid()
      reads this, stateTable, symbolTT
    {
      if useRLE then RleOk() else TablesOk()
    }

    /** One symbol only: one cell, no bits. */
    ghost predicate RleOk()
      reads this, stateTable, symbolTT
    {
      && actualTableLog == 0 && cells == [rleVal]
      && stateTable.Length == 1 && stateTable[0] == 0
      && rleVal < symbolTT.Length && symbolTT[rleVal] == SymbolTransform(0, 0)
    }

    /** States count from here. */
    ghost function Bias(): nat
      reads this
    {
      if useRLE then 0 else |cells|
    }

    ghost predicate TablesOk()
      reads this, stateTable, symbolTT
    {
      && actualTableLog >= 4 && TableOk(cells, actualTableLog) && HasCounts(cells, norm) && 2 * Pow2(actualTableLog) <= 0x8000
      && Total(norm) == |cells|
      && stateTable.Length == |cells| && symbolTT.Length >= |norm|
      && Sorted(stateTable[..], cells, norm, |cells|)
      && Transforms(symbolTT[..], norm, actualTableLog, |norm|)
    }

    /** The state table lists the states by symbol. */
    static ghost predicate Sorted(table: seq<nat>, cells: seq<nat>, norm: seq<int>, n: nat)
      requires HasCounts(cells, norm)
    {
      n <= |cells| && forall u :: 0 <= u < n ==> Place(cells, norm, u) < |table| && table[Place(cells, norm, u)] == |cells| + u
    }

    static ghost predicate Transforms(tt: seq<SymbolTransform>, norm: seq<int>, log: nat, n: nat)
      requires Counts(norm)
    {
      n <= |norm| && n <= |tt| &&
      forall s :: 0 <= s < n && norm[s] != 0 ==> tt[s] == SymbolTransform(DeltaNbBits(log, Weight(norm[s])), First(norm, s) - Weight(norm[s]))
    }

    constructor ()
      ensures fresh(stateTable) && fresh(symbolTT)
    {
      norm, actualTableLog, cells, useRLE, rleVal := [], 0, [], false, 0;
      stateTable := new nat[0];
      symbolTT := new SymbolTransform[0];
    }

    /** Builds the tables; fails exactly when the counts do not add up to the table size. */
    method BuildCTable(norm_: seq<int>, log: nat) returns (err: Option<Error>)
      requires 4 <= log <= 14 && Counts(norm_) && |Rare(norm_)| <= Pow2(log)
      modifies this
      ensures err == None <==> Total(norm_) == Pow2(log)
      ensures err == None ==> Valid() && !useRLE && norm == norm_ && actualTableLog == log && IsSpread(norm_, log, cells)
      ensures fresh(stateTable) && fresh(symbolTT)
    {
      hide Pow2, Total, IsSpread, Rare, Sorted, Transforms;
      norm, actualTableLog, useRLE := norm_, log, false;
      var tableSize := Pow2(log);
      stateTable, symbolTT := new nat[tableSize], new SymbolTransform[|norm|];
      var cumul := Starts(norm);
      if cumul[|norm|] != tableSize {
        return Some(BadTable);
      }
      var tableSymbol := new nat[tableSize];
      var position := Spread(tableSymbol, norm, log);
      if position != 0 {
        assert false;
      }
      var symbols := tableSymbol[..];
      cells := symbols;
      SpreadHasCounts(norm, log, cells);
      SmallSize(log);
      SortStates(stateTable, cumul, symbols, norm);
      FillTransforms(symbolTT, norm, log);
      return None;
    }

    static lemma SmallSize(log: nat)
      requires log <= 14
      ensures 2 * Pow2(log) <= 0x8000
    {
      hide Pow2;
      Pow2Mono(log, 14);
      PowersToByte();
      Pow2Add(7, 7);
    }

    /** The first place of every symbol, and the end. */
    static method Starts(norm: seq<int>) returns (cumul: array<nat>)
      requires Counts(norm)
      ensures fresh(cumul) && cumul.Length == |norm| + 1
      ensures forall s :: 0 <= s <= |norm| ==> cumul[s] == First(norm, s)
      ensures cumul[|norm|] == Total(norm)
    {
      cumul := new nat[|norm| + 1];
      cumul[0] := 0;
      for s := 0 to |norm|
        invariant forall k :: 0 <= k <= s ==> cumul[k] == First(norm, k)
      {
        FirstNext(norm, s);
        cumul[s + 1] := cumul[s] + if norm[s] == -1 then 1 else norm[s];
      }
      assert norm[..|norm|] == norm;
    }

    /** Goes through the cells and appends each to the list of its symbol. */
    static method SortStates(table: array<nat>, cumul: array<nat>, cells: seq<nat>, norm: seq<int>)
      requires HasCounts(cells, norm) && Total(norm) == |cells| == table.Length && table != cumul && cumul.Length == |norm| + 1
      requires forall s :: 0 <= s <= |norm| ==> cumul[s] == First(norm, s)
      modifies table, cumul
      ensures Sorted(table[..], cells, norm, |cells|)
    {
      hide Total, First, Sorted, HasCounts;
      CellsNamed(cells, norm);
      CountsSoFarNone(cumul[..], cells, norm);
      SortedNone(table[..], cells, norm);
      for u := 0 to |cells|
        invariant CountedSoFar(cumul[..], cells, norm, u)
        invariant Sorted(table[..], cells, norm, u)
      {
        PlaceInside(cells, norm, u);
        CountsSoFarNext(cumul[..], cells, norm, u);
        SortedNext(table[..], cells, norm, u);
        var v := cells[u];
        table[cumul[v]] := |cells| + u;
        cumul[v] := cumul[v] + 1;
      }
    }

    static lemma CellsNamed(cells: seq<nat>, norm: seq<int>)
      requires HasCounts(cells, norm)
      ensures forall u :: 0 <= u < |cells| ==> cells[u] < |norm|
    {
    }

    static ghost predicate CountedSoFar(cumul: seq<nat>, cells: seq<nat>, norm: seq<int>, u: nat)
      requires HasCounts(cells, norm) && u <= |cells|
    {
      |cumul| == |norm| + 1 && forall s :: 0 <= s < |norm| ==> cumul[s] == First(norm, s) + Count(cells[..u], s)
    }

    static lemma CountsSoFarNone(cumul: seq<nat>, cells: seq<nat>, norm: seq<int>)
      requires HasCounts(cells, norm) && |cumul| == |norm| + 1 && forall s :: 0 <= s <= |norm| ==> cumul[s] == First(norm, s)
      ensures CountedSoFar(cumul, cells, norm, 0)
    {
      assert cells[..0] == [];
    }

    static lemma CountsSoFarNext(cumul: seq<nat>, cells: seq<nat>, norm: seq<int>, u: nat)
      requires HasCounts(cells, norm) && u < |cells| && CountedSoFar(cumul, cells, norm, u)
      ensures cumul[cells[u]] == Place(cells, norm, u)
      ensures CountedSoFar(cumul[cells[u] := cumul[cells[u]] + 1], cells, norm, u + 1)
    {
      assert cells[..u + 1][..u] == cells[..u];
    }

    static lemma SortedNone(table: seq<nat>, cells: seq<nat>, norm: seq<int>)
      requires HasCounts(cells, norm)
      ensures Sorted(table, cells, norm, 0)
    {
    }

    static lemma SortedNext(table: seq<nat>, cells: seq<nat>, norm: seq<int>, u: nat)
      requires HasCounts(cells, norm) && Total(norm) == |table| && u < |cells| && Sorted(table, cells, norm, u)
      ensures Place(cells, norm, u) < |table|
      ensures Sorted(table[Place(cells, norm, u) := |cells| + u], cells, norm, u + 1)
    {
      hide HasCounts, Place, Total, First;
      PlaceBelow(cells, norm, u);
      forall v | 0 <= v < u
        ensures Place(cells, norm, v) != Place(cells, norm, u)
      {
        PlaceOnce(cells, norm, v, u);
      }
    }

    static lemma PlaceBelow(cells: seq<nat>, norm: seq<int>, u: nat)
      requires HasCounts(cells, norm) && u < |cells|
      ensures cells[u] < |norm| && Place(cells, norm, u) < Total(norm)
      ensures Counts(norm) && forall v :: 0 <= v < |cells| ==> cells[v] < |norm|
    {
      PlaceInside(cells, norm, u);
    }

    static method FillTransforms(tt: array<SymbolTransform>, norm: seq<int>, log: nat)
      requires Counts(norm) && tt.Length == |norm| && Total(norm) == Pow2(log)
      modifies tt
      ensures Transforms(tt[..], norm, log, |norm|)
    {
      hide Pow2, Total, BitLen;
      var total := 0;
      FirstOf(norm);
      for s := 0 to |norm|
        invariant total == First(norm, s)
        invariant Transforms(tt[..], norm, log, s)
      {
        FirstNext(norm, s);
        FirstMono(norm, s + 1, |norm|);
        var v := norm[s];
        if v == -1 || v == 1 {
          tt[s] := SymbolTransform(log * 0x1_0000 - Pow2(log), total - 1);
          total := total + 1;
        } else if v != 0 {
          SizeOf(v, log);
          var maxBitsOut := log - (BitLen(v - 1) - 1);
          tt[s] := SymbolTransform(maxBitsOut * 0x1_0000 - Shl(v, maxBitsOut), total - v);
          total := total + v;
        }
      }
    }

    static lemma FirstOf(norm: seq<int>)
      requires Counts(norm)
      ensures First(norm, 0) == 0 && First(norm, |norm|) == Total(norm)
    {
      assert norm[..|norm|] == norm;
    }

    static lemma SizeOf(v: nat, log: nat)
      requires 2 <= v <= Pow2(log)
      ensures 1 <= BitLen(v - 1) <= log
    {
      BitLenBound(v - 1, log);
      BitLenPositive(v - 1);
    }

    /** All sequences have the same code. */
    method SetRLE(val: nat)
      modifies this
      ensures Valid() && useRLE && cells == [val] && actualTableLog == 0
      ensures fresh(stateTable) && fresh(symbolTT)
    {
      actualTableLog, useRLE, rleVal := 0, true, val;
      cells := [val];
      stateTable, symbolTT := new nat[1], new SymbolTransform[val + 1];
      stateTable[0] := 0;
      symbolTT[val] := SymbolTransform(0, 0);
    }

    /** Starts a stream: any state of the symbol will do; this is the one of its first cell. */
    method Init(first: nat) returns (state: nat)
      requires Valid() && Count(cells, first) >= 1
      ensures state == Bias() + Cell(cells, first, 0)
    {
      hide Pow2, Total, First, DeltaNbBits, Place, Sorted, Transforms, BitLen;
      if stateTable.Length == 1 {
        SizeOne(actualTableLog);
        return 0;
      }
      TransformOf(first);
      var tt := symbolTT[first];
      LeastState(actualTableLog, Count(cells, first));
      var nbBitsOut: nat := (tt.deltaNbBits + 0x8000) / 0x1_0000;
      var im: nat := nbBitsOut * 0x1_0000 - tt.deltaNbBits;
      StateAt(first, 0);
      state := stateTable[Shr(im, nbBitsOut) + tt.deltaFindState];
    }

    /** Leaves the state for a symbol: how many low bits to write, and the next state. */
    method Encode(state: nat, s: nat) returns (nbBitsOut: nat, next: nat)
      requires Valid() && TableOk(cells, actualTableLog) && Bias() <= state < Bias() + |cells| && Count(cells, s) >= 1
      ensures nbBitsOut == Emit(cells, actualTableLog, state - Bias(), s)
      ensures next == Bias() + Move(cells, actualTableLog, state - Bias(), s)
      ensures useRLE ==> nbBitsOut == 0
    {
      hide Pow2, Total, First, DeltaNbBits, Place, Sorted, Transforms, Shr, Shrink, Count;
      SymbolListed(s);
      var tt := symbolTT[s];
      if useRLE {
        RleStep(s);
      } else {
        TransformOf(s);
        DeltaMeaning(actualTableLog, Count(cells, s), state);
        StateAt(s, Shr(state, Emit(cells, actualTableLog, state - Bias(), s)) - Count(cells, s));
      }
      nbBitsOut := (state + tt.deltaNbBits) / 0x1_0000;
      var dstState := Shr(state, nbBitsOut) + tt.deltaFindState;
      next := stateTable[dstState];
    }

    /** With one symbol nothing moves and nothing is written. */
    lemma RleStep(s: nat)
      requires Valid() && useRLE && Count(cells, s) >= 1
      ensures s == rleVal && Pow2(actualTableLog) == 1 && Count(cells, s) == 1
      ensures Emit(cells, actualTableLog, 0, s) == 0 && Move(cells, actualTableLog, 0, s) == 0 && Shr(0, 0) == 0
    {
      assert cells[..0] == [];
      ShrinkIs(1, 1, 0);
    }

    lemma SymbolListed(s: nat)
      requires Valid() && Count(cells, s) >= 1
      ensures s < symbolTT.Length
    {
      if useRLE {
        assert cells[..0] == [];
      } else {
        TransformOf(s);
      }
    }

    static lemma SizeOne(log: nat)
      ensures log >= 4 ==> Pow2(log) > 1
      ensures Pow2(0) == 1
    {
    }

    lemma TransformOf(s: nat)
      requires Valid() && !useRLE && Count(cells, s) >= 1
      ensures s < |norm| && norm[s] != 0 && s < symbolTT.Length && 1 <= Count(cells, s) <= |cells|
      ensures symbolTT[s] == SymbolTransform(DeltaNbBits(actualTableLog, Count(cells, s)), First(norm, s) - Count(cells, s))
    {
      hide DeltaNbBits, First, Pow2, Total;
      var u := Cell(cells, s, 0);
    }

    lemma StateAt(s: nat, r: nat)
      requires Valid() && !useRLE && s < |norm| && r < Count(cells, s)
      ensures First(norm, s) + r < stateTable.Length && stateTable[First(norm, s) + r] == |cells| + Cell(cells, s, r)
    {
      hide DeltaNbBits, First, Pow2, Total;
      var u := Cell(cells, s, r);
      assert Place(cells, norm, u) == First(norm, s) + r;
    }

    /** The least state that a symbol with n cells shrinks to n. */
    static lemma LeastState(log: nat, n: nat)
      requires 1 <= n <= Pow2(log) && 2 * Pow2(log) <= 0x8000
      ensures var delta := DeltaNbBits(log, n);
              var nb := (delta + 0x8000) / 0x1_0000;
              nb >= 0 && nb * 0x1_0000 - delta >= 0 && Shr(nb * 0x1_0000 - delta, nb) == n
    {
      hide Pow2, Shr, Low, BitLen;
      if n == 1 {
        LeastOfOne(log);
      } else {
        LeastOfMany(log, n);
      }
    }

    static lemma LeastOfOne(log: nat)
      requires 2 * Pow2(log) <= 0x8000
      ensures var delta := DeltaNbBits(log, 1);
              var nb := (delta + 0x8000) / 0x1_0000;
              nb == log && nb * 0x1_0000 - delta == Pow2(log) && Shr(Pow2(log), log) == 1
    {
      hide Pow2, Shr, Low, BitLen;
      Quotient(0x8000 - Pow2(log), log);
      ShrBetween(Pow2(log), log, 1, 2);
    }

    static lemma LeastSmall(log: nat, n: nat)
      requires 2 <= n <= Pow2(log) && 1 <= BitLen(n - 1) <= log
      ensures Shl(n, log - (BitLen(n - 1) - 1)) <= 2 * Pow2(log)
    {
      hide Pow2, BitLen;
      BitLenRange(n - 1);
      var h := BitLen(n - 1) - 1;
      var p := Pow2(log - h);
      Pow2Add(h, log - h);
      MulDouble(p, Pow2(h));
      MulDifference(2 * Pow2(h), n, p);
    }

    static lemma LeastOfMany(log: nat, n: nat)
      requires 2 <= n <= Pow2(log) && 2 * Pow2(log) <= 0x8000
      ensures var delta := DeltaNbBits(log, n);
              var nb := (delta + 0x8000) / 0x1_0000;
              nb >= 0 && nb * 0x1_0000 - delta >= 0 && Shr(nb * 0x1_0000 - delta, nb) == n
    {
      hide Pow2, Shr, Low, BitLen;
      SizeOf(n, log);
      var mb := log - (BitLen(n - 1) - 1);
      var least := Shl(n, mb);
      assert DeltaNbBits(log, n) == mb * 0x1_0000 - least;
      LeastSmall(log, n);
      Quotient(0x8000 - least, mb);
      ShrOfShl(n, mb, 0);
    }
  }

  // ----- the decoder -----

  /** One cell of the decoder's table: the symbol, later the extra bits and the base of its values. */
  datatype DecSymbol = DecSymbol(nbBits: nat, addBits: nat, newState: nat, baseline: nat)

  class FseDecoder {
    var actualTableLog: nat
    var maxBits: nat
    var dt: array<DecSymbol>
    ghost var cells: seq<nat>

    /** The cells lead on as the coding demands. */
    ghost predicate Leads(n: nat)
      reads this, dt
    {
      && TableOk(cells, actualTableLog) && dt.Length == |cells| && n <= |cells|
      && forall u :: 0 <= u < n ==> dt[u].nbBits == NbBits(cells, actualTableLog, u) && dt[u].newState == Base(cells, actualTableLog, u)
    }

    /** Every cell holds its symbol. */
    ghost predicate Symbols()
      reads this, dt
    {
      dt.Length == |cells| && forall u :: 0 <= u < |cells| ==> dt[u].addBits == cells[u]
    }

    /** Every cell holds the base and the extra bits of its symbol. */
    ghost predicate Valid(bases: seq<BaseOffset>)
      reads this, dt
    {
      && Leads(|cells|)
      && (forall u :: 0 <= u < |cells| ==> cells[u] < |bases|)
      && (forall u :: 0 <= u < |cells| ==> dt[u].addBits == bases[cells[u]].addBits && dt[u].baseline == bases[cells[u]].baseLine)
      && (forall u :: 0 <= u < |cells| ==> bases[cells[u]].addBits <= maxBits)
    }

    constructor ()
      ensures fresh(dt)
    {
      actualTableLog, maxBits, cells := 0, 0, [];
      dt := new DecSymbol[0];
    }

    /** Every symbol's states begin with the number of its cells. */
    static method FirstStates(norm: seq<int>) returns (symbolNext: array<nat>)
      requires Counts(norm)
      ensures fresh(symbolNext) && symbolNext.Length == |norm| && forall k :: 0 <= k < |norm| ==> symbolNext[k] == Weight(norm[k])
    {
      symbolNext := new nat[|norm|];
      for i := 0 to |norm|
        invariant forall k :: 0 <= k < i ==> symbolNext[k] == Weight(norm[k])
      {
        symbolNext[i] := if norm[i] == -1 then 1 else norm[i];
      }
    }

    /** Builds the table. It fails exactly when one symbol has every cell: its state would stay where it is and read nothing. */
    method BuildDtable(norm: seq<int>, log: nat) returns (err: Option<Error>)
      requires 4 <= log <= 14 && Counts(norm) && Total(norm) == Pow2(log)
      modifies this
      ensures IsSpread(norm, log, cells) && actualTableLog == log && fresh(dt)
      ensures err != None <==> exists s :: 0 <= s < |norm| && Weight(norm[s]) == Pow2(log)
      ensures err == None ==> Leads(|cells|) && Symbols()
    {
      hide Pow2, Total, IsSpread, Expanded, Rare, NbBits, Base, HasCounts, NextSoFar, Stuck, Shl, Count, BitLen, NextState;
      var tableSize := Pow2(log);
      var symbolNext := FirstStates(norm);
      var t := new nat[tableSize];
      var position := Spread(t, norm, log);
      if position != 0 {
        assert false;
      }
      var symbols := t[..];
      cells, actualTableLog := symbols, log;
      SpreadHasCounts(norm, log, cells);
      dt := new DecSymbol[tableSize];
      NextNone(symbolNext[..], cells, norm);
      var stuck := FillCells(dt, symbolNext, symbols, norm, log);
      if stuck {
        return Some(BadTable);
      }
      NoneHasAll(cells, norm, log);
      return None;
    }

    /** Where every cell leads; gives up at one that leads to itself without reading. */
    static method FillCells(dt: array<DecSymbol>, symbolNext: array<nat>, symbols: seq<nat>, ghost norm: seq<int>, log: nat) returns (stuck: bool)
      requires TableOk(symbols, log) && HasCounts(symbols, norm) && dt.Length == |symbols| && NextSoFar(symbolNext[..], symbols, norm, 0)
      modifies dt, symbolNext
      ensures stuck ==> exists s :: 0 <= s < |norm| && Weight(norm[s]) == Pow2(log)
      ensures !stuck ==> forall u :: 0 <= u < |symbols| ==>
                dt[u].nbBits == NbBits(symbols, log, u) && dt[u].newState == Base(symbols, log, u) && dt[u].addBits == symbols[u] && !Stuck(symbols, log, u)
    {
      hide Pow2, NbBits, Base, NextSoFar, Stuck, Shl, Count, BitLen, NextState, Weight;
      var tableSize := Pow2(log);
      for u := 0 to tableSize
        invariant NextSoFar(symbolNext[..], symbols, norm, u)
        invariant forall v :: 0 <= v < u ==>
                    dt[v].nbBits == NbBits(symbols, log, v) && dt[v].newState == Base(symbols, log, v) && dt[v].addBits == symbols[v] && !Stuck(symbols, log, v)
      {
        NextAt(symbolNext[..], symbols, norm, u);
        NextSize(symbolNext[..], symbols, norm, u);
        CellFacts(symbols, log, u);
        var symbol := symbols[u];
        var nextState := symbolNext[symbol];
        ghost var next := symbolNext[..];
        symbolNext[symbol] := nextState + 1;
        assert symbolNext[..] == next[symbol := nextState + 1];
        var nBits := log - HighBit(nextState);
        var newState := Shl(nextState, nBits) - tableSize;
        if newState > tableSize {
          assert false;
        }
        if newState == u && nBits == 0 {
          StuckMeansAll(symbols, norm, log, u);
          return true;
        }
        dt[u] := DecSymbol(nBits, symbol, newState, 0);
      }
      stuck := false;
    }

    static lemma NextSize(next: seq<nat>, cells: seq<nat>, norm: seq<int>, u: nat)
      requires HasCounts(cells, norm) && u <= |cells| && NextSoFar(next, cells, norm, u)
      ensures |next| == |norm|
    {
    }

    static ghost predicate NextSoFar(next: seq<nat>, cells: seq<nat>, norm: seq<int>, u: nat)
      requires HasCounts(cells, norm) && u <= |cells|
    {
      |next| == |norm| && forall s :: 0 <= s < |norm| ==> next[s] == Weight(norm[s]) + Count(cells[..u], s)
    }

    static lemma NextNone(next: seq<nat>, cells: seq<nat>, norm: seq<int>)
      requires HasCounts(cells, norm) && |next| == |norm| && forall s :: 0 <= s < |norm| ==> next[s] == Weight(norm[s])
      ensures NextSoFar(next, cells, norm, 0)
    {
      assert cells[..0] == [];
    }

    static lemma NextAt(next: seq<nat>, cells: seq<nat>, norm: seq<int>, u: nat)
      requires HasCounts(cells, norm) && u < |cells| && NextSoFar(next, cells, norm, u)
      ensures cells[u] < |norm| && next[cells[u]] == NextState(cells, u)
      ensures NextSoFar(next[cells[u] := next[cells[u]] + 1], cells, norm, u + 1)
    {
      assert cells[..u + 1][..u] == cells[..u];
    }

    static lemma CellFacts(cells: seq<nat>, log: nat, u: nat)
      requires TableOk(cells, log) && u < |cells|
      ensures NextState(cells, u) >= 1 && HighBit(NextState(cells, u)) <= log
      ensures NbBits(cells, log, u) == log - HighBit(NextState(cells, u))
      ensures Base(cells, log, u) == Shl(NextState(cells, u), NbBits(cells, log, u)) - Pow2(log) < Pow2(log)
      ensures Stuck(cells, log, u) <==> Base(cells, log, u) == u && NbBits(cells, log, u) == 0
    {
      hide Pow2, BitLen, Count;
      CountPrefix(cells, u, cells[u]);
      NextStateLen(cells, log, u);
      BaseOk(cells, log, u);
    }

    /** A cell that leads to itself without reading. */
    static predicate Stuck(cells: seq<nat>, log: nat, u: nat)
      requires TableOk(cells, log) && u < |cells|
    {
      NbBits(cells, log, u) == 0 && Base(cells, log, u) == u
    }

    static lemma StuckMeansAll(cells: seq<nat>, norm: seq<int>, log: nat, u: nat)
      requires TableOk(cells, log) && HasCounts(cells, norm) && u < |cells| && Stuck(cells, log, u)
      ensures Weight(norm[cells[u]]) == Pow2(log)
    {
      hide Pow2, BitLen;
      assert Shl(NextState(cells, u), 0) == NextState(cells, u) by { ShlNothing(NextState(cells, u)); }
    }

    static lemma ShlNothing(x: nat)
      ensures Shl(x, 0) == x
    {
    }

    /** A symbol that has every cell makes the first one stuck. */
    static lemma NoneHasAll(cells: seq<nat>, norm: seq<int>, log: nat)
      requires TableOk(cells, log) && HasCounts(cells, norm) && forall u :: 0 <= u < |cells| ==> !Stuck(cells, log, u)
      ensures !exists s :: 0 <= s < |norm| && Weight(norm[s]) == Pow2(log)
    {
      hide Pow2, BitLen, NbBits, Base, Shl;
      if s :| 0 <= s < |norm| && Weight(norm[s]) == Pow2(log) {
        assert Count(cells, s) == |cells|;
        AllTheSame(cells, s);
        FullCell(cells, log);
        assert false;
      }
    }

    static lemma {:induction false} AllTheSame(t: seq<nat>, s: nat)
      requires Count(t, s) == |t|
      ensures forall u :: 0 <= u < |t| ==> t[u] == s
      decreases |t|
    {
      if t != [] { AllTheSame(t[..|t| - 1], s); }
    }

    static lemma FullCell(cells: seq<nat>, log: nat)
      requires TableOk(cells, log) && Count(cells, cells[0]) == |cells|
      ensures Stuck(cells, log, 0)
    {
      hide Pow2, BitLen;
      assert cells[..0] == [];
      assert NextState(cells, 0) == Pow2(log);
      BitLenIs(Pow2(log), log);
      ShlNothing(Pow2(log));
    }

    /** Replaces every symbol by the base and the extra bits of its values; fails on a symbol without any. */
    method Transform(t: seq<BaseOffset>) returns (err: Option<Error>)
      requires Leads(|cells|) && Symbols()
      modifies this`maxBits, dt
      ensures err == None <==> forall u :: 0 <= u < |cells| ==> cells[u] < |t|
      ensures err == None ==> Valid(t)
    {
      hide NbBits, Base, Pow2;
      maxBits := 0;
      for i := 0 to dt.Length
        invariant Leads(|cells|)
        invariant forall u :: i <= u < |cells| ==> dt[u].addBits == cells[u]
        invariant forall u :: 0 <= u < i ==> cells[u] < |t|
        invariant forall u :: 0 <= u < i ==> dt[u].addBits == t[cells[u]].addBits <= maxBits && dt[u].baseline == t[cells[u]].baseLine
      {
        var add := dt[i].addBits;
        if add >= |t| {
          return Some(BadSymbol);
        }
        var lu := t[add];
        if lu.addBits > maxBits {
          maxBits := lu.addBits;
        }
        dt[i] := dt[i].(addBits := lu.addBits, baseline := lu.baseLine);
      }
      return None;
    }

    /** All sequences have the same code. */
    method SetRLE(symb: nat, t: seq<BaseOffset>) returns (err: Option<Error>)
      modifies this
      ensures err == None <==> symb < |t|
      ensures err == None ==> Valid(t) && cells == [symb] && actualTableLog == 0 && fresh(dt)
    {
      if symb >= |t| {
        return Some(BadSymbol);
      }
      var lu := t[symb];
      actualTableLog, maxBits, cells := 0, lu.addBits, [symb];
      dt := new DecSymbol[1];
      dt[0] := DecSymbol(0, lu.addBits, 0, lu.baseLine);
      OneCell(symb);
      return None;
    }

    static lemma OneCell(symb: nat)
      ensures TableOk([symb], 0) && NbBits([symb], 0, 0) == 0 && Base([symb], 0, 0) == 0
    {
      assert [symb][..0] == [];
      assert NextState([symb], 0) == 1;
      BitLenIs(1, 0);
      ShlNothing(1);
    }
  }
}
